/** Route patterns with path parameters: `PathParamsMatcher` accepts exactly the instances of its pattern. */
module Routes {
  import opened Options
  import opened Text

  const MARKER: string := "/:"

  /** `static_fragments_` and `param_names_`. */
  datatype Route = Route(fragments: seq<string>, names: seq<string>)

  /** There is a fragment in front of every parameter and at most one after the last. */
  predicate Balanced(r: Route) {
    |r.fragments| == |r.names| || |r.fragments| == |r.names| + 1
  }

  function Tail(r: Route): Route
    requires r.fragments != []
  {
    Route(r.fragments[1..], if r.names == [] then [] else r.names[1..])
  }

  /** `find('/')`: the first '/' in the text, or its end. */
  function Separator(s: string): (r: nat)
    ensures r <= |s| && (r < |s| ==> s[r] == '/')
  {
    if s == "" || s[0] == '/' then 0 else 1 + Separator(s[1..])
  }

  lemma {:induction false} SeparatorFirst(s: string)
    ensures '/' !in s[..Separator(s)]
  {
    if s != "" && s[0] != '/' {
      SeparatorFirst(s[1..]);
      assert s[..Separator(s)] == [s[0]] + s[1..][..Separator(s[1..])];
    }
  }

  lemma {:induction false} SeparatorAfter(value: string, rest: string)
    requires '/' !in value && (rest == "" || rest[0] == '/')
    ensures Separator(value + rest) == |value|
  {
    if value != "" {
      SeparatorAfter(value[1..], rest);
      assert (value + rest)[1..] == value[1..] + rest;
    } else {
      assert value + rest == rest;
    }
  }

  // ---- The constructor ----

  /** Where the name starts and ends after the first marker. */
  function NameEnd(rest: string, m: nat): (r: nat)
    requires m + 2 <= |rest|
    ensures m + 2 <= r <= |rest| && (r < |rest| ==> rest[r] == '/')
  {
    m + 2 + Separator(rest[m + 2..])
  }

  /** The fragments and names of a pattern, or of what is left of it from the '/' after a parameter on. */
  function Parsed(rest: string, first: bool): (r: Route)
    requires first || rest == "" || rest[0] == '/'
    ensures Balanced(r)
    decreases |rest|
  {
    match FindFrom(rest, MARKER, 0)
    case None =>
      var text := if first || rest == "" then rest else rest[1..];
      Route(if text == "" then [] else [text], [])
    case Some(m) =>
      var more := Parsed(rest[NameEnd(rest, m)..], false);
      Route([rest[(if first then 0 else 1)..m + 1]] + more.fragments, [rest[m + 2..NameEnd(rest, m)]] + more.names)
  }

  /** The pattern with its parameters replaced by values. */
  function Instance(rest: string, values: seq<string>): string
    decreases |rest|
  {
    match FindFrom(rest, MARKER, 0)
    case None => rest
    case Some(m) =>
      var end := NameEnd(rest, m);
      rest[..m + 1] + (if values == [] then "" else values[0]) +
        Instance(rest[end..], if values == [] then [] else values[1..])
  }

  // ---- Matching ----

  /** `strncmp(text, fragment, |fragment|) == 0`; the comparison ends at a common NUL. */
  predicate SameUpToNul(text: string, fragment: string)
    requires |fragment| <= |text|
  {
    fragment == "" ||
    (text[0] == fragment[0] && (text[0] == '\0' || SameUpToNul(text[1..], fragment[1..])))
  }

  /** What `match` captures of a text, if it accepts it. */
  function Captured(r: Route, text: string): Option<seq<string>>
    decreases |r.fragments|, 0
  {
    if r.fragments == [] then (if text == "" then Some([]) else None)
    else
      var f := r.fragments[0];
      if |f| > |text| || !SameUpToNul(text, f) then None
      else if r.names == [] then Captured(Tail(r), text[|f|..])
      else
        var after := text[|f|..];
        var sep := Separator(after);
        match AfterParameter(Tail(r), after, sep)
        case None => None
        case Some(values) => Some([after[..sep]] + values)
  }

  /** The rest of the match, one past the separator or one past the end. */
  function AfterParameter(r: Route, after: string, sep: nat): Option<seq<string>>
    requires sep <= |after|
    decreases |r.fragments|, 1
  {
    if sep < |after| then Captured(r, after[sep + 1..])
    else if r.fragments == [] then Some([]) else None
  }

  // ---- The comparison up to a NUL ----

  /** Fragments that the comparison cannot tell apart. */
  predicate AlikeTexts(f: string, g: string) { |g| == |f| && SameUpToNul(g, f) }

  /** The same names, and fragments that the comparison cannot tell apart. */
  predicate Alike(r: Route, q: Route) {
    && q.names == r.names && |q.fragments| == |r.fragments|
    && forall i :: 0 <= i < |r.fragments| ==> AlikeTexts(r.fragments[i], q.fragments[i])
  }

  /** Only the characters of the fragment's length are compared. */
  lemma {:induction false} SameInFront(text: string, f: string)
    requires |f| <= |text|
    ensures SameUpToNul(text, f) <==> SameUpToNul(text[..|f|], f)
  {
    if f != "" {
      assert text[..|f|][1..] == text[1..][..|f[1..]|];
      SameInFront(text[1..], f[1..]);
    }
  }

  lemma {:induction false} AlikeSelf(f: string)
    ensures AlikeTexts(f, f)
  {
    if f != "" {
      AlikeSelf(f[1..]);
    }
  }

  /** `match` with a comparison that does not end at a NUL. */
  function Exact(r: Route, text: string): Option<seq<string>>
    decreases |r.fragments|, 0
  {
    if r.fragments == [] then (if text == "" then Some([]) else None)
    else
      var f := r.fragments[0];
      if !(f <= text) then None
      else if r.names == [] then Exact(Tail(r), text[|f|..])
      else
        var after := text[|f|..];
        var sep := Separator(after);
        match ExactAfter(Tail(r), after, sep)
        case None => None
        case Some(values) => Some([after[..sep]] + values)
  }

  function ExactAfter(r: Route, after: string, sep: nat): Option<seq<string>>
    requires sep <= |after|
    decreases |r.fragments|, 1
  {
    if sep < |after| then Exact(r, after[sep + 1..])
    else if r.fragments == [] then Some([]) else None
  }

  /** The route with its fragments as the text has them. */
  function Found(r: Route, text: string): Route
    decreases |r.fragments|, 0
  {
    if r.fragments == [] || |r.fragments[0]| > |text| then r
    else
      var f := text[..|r.fragments[0]|];
      var after := text[|f|..];
      var more := if r.names == [] then Found(Tail(r), after) else FoundAfter(Tail(r), after, Separator(after));
      Route([f] + more.fragments, r.names)
  }

  function FoundAfter(r: Route, after: string, sep: nat): Route
    requires sep <= |after|
    decreases |r.fragments|, 1
  {
    if sep < |after| then Found(r, after[sep + 1..]) else r
  }

  lemma AlikeCons(r: Route, f: string, q: Route)
    requires r.fragments != [] && AlikeTexts(r.fragments[0], f) && Alike(Tail(r), q)
    ensures Alike(r, Route([f] + q.fragments, r.names))
    ensures Tail(Route([f] + q.fragments, r.names)) == q
  {
    var w := Route([f] + q.fragments, r.names);
    assert w.fragments[1..] == q.fragments;
    forall i | 0 <= i < |r.fragments|
      ensures AlikeTexts(r.fragments[i], w.fragments[i])
    {
      if i > 0 {
        assert r.fragments[i] == Tail(r).fragments[i - 1] && w.fragments[i] == q.fragments[i - 1];
      }
    }
  }

  lemma AlikeTail(r: Route, q: Route)
    requires Alike(r, q) && r.fragments != []
    ensures Alike(Tail(r), Tail(q)) && AlikeTexts(r.fragments[0], q.fragments[0])
  {
  }

  lemma AlikeItself(r: Route)
    ensures Alike(r, r)
  {
    forall i | 0 <= i < |r.fragments|
      ensures AlikeTexts(r.fragments[i], r.fragments[i])
    {
      AlikeSelf(r.fragments[i]);
    }
  }

  /** What is captured of a text is captured exactly by the route as the text has it. */
  lemma {:induction false} FoundCaptures(r: Route, text: string)
    requires Captured(r, text).Some?
    ensures Alike(r, Found(r, text)) && Exact(Found(r, text), text) == Captured(r, text)
    decreases |r.fragments|, 0
  {
    if r.fragments == [] {
      AlikeItself(r);
    } else {
      var f := text[..|r.fragments[0]|];
      var after := text[|f|..];
      SameInFront(text, r.fragments[0]);
      if r.names == [] {
        FoundCaptures(Tail(r), after);
        AlikeCons(r, f, Found(Tail(r), after));
      } else {
        FoundAfterCaptures(Tail(r), after, Separator(after));
        AlikeCons(r, f, FoundAfter(Tail(r), after, Separator(after)));
      }
    }
  }

  lemma {:induction false} FoundAfterCaptures(r: Route, after: string, sep: nat)
    requires sep <= |after| && AfterParameter(r, after, sep).Some?
    ensures Alike(r, FoundAfter(r, after, sep))
    ensures ExactAfter(FoundAfter(r, after, sep), after, sep) == AfterParameter(r, after, sep)
    decreases |r.fragments|, 1
  {
    if sep < |after| {
      FoundCaptures(r, after[sep + 1..]);
    } else {
      AlikeItself(r);
    }
  }

  /** What a route alike captures exactly is captured. */
  lemma {:induction false} AlikeCaptures(r: Route, q: Route, text: string)
    requires Alike(r, q) && Exact(q, text).Some?
    ensures Captured(r, text) == Exact(q, text)
    decreases |r.fragments|, 0
  {
    if r.fragments != [] {
      AlikeTail(r, q);
      var f := q.fragments[0];
      assert text[..|f|] == f;
      SameInFront(text, r.fragments[0]);
      if r.names == [] {
        AlikeCaptures(Tail(r), Tail(q), text[|f|..]);
      } else {
        AlikeAfter(Tail(r), Tail(q), text[|f|..], Separator(text[|f|..]));
      }
    }
  }

  lemma {:induction false} AlikeAfter(r: Route, q: Route, after: string, sep: nat)
    requires Alike(r, q) && sep <= |after| && ExactAfter(q, after, sep).Some?
    ensures AfterParameter(r, after, sep) == ExactAfter(q, after, sep)
    decreases |r.fragments|, 1
  {
    if sep < |after| {
      AlikeCaptures(r, q, after[sep + 1..]);
    }
  }

  // ---- Accepted texts are the filled patterns ----

  /** The fragments with values between them. */
  function Filled(r: Route, values: seq<string>): string
    requires Balanced(r) && |values| == |r.names|
    decreases |r.fragments|, 0
  {
    if r.fragments == [] then ""
    else if r.names == [] then r.fragments[0]
    else r.fragments[0] + (values[0] + Continued(Tail(r), values[1..]))
  }

  /** What follows a value. */
  function Continued(r: Route, values: seq<string>): string
    requires Balanced(r) && |values| == |r.names|
    decreases |r.fragments|, 1
  {
    if r.fragments == [] then "" else "/" + Filled(r, values)
  }

  predicate Plain(values: seq<string>) { forall i :: 0 <= i < |values| ==> '/' !in values[i] }

  /** The text is the filled route, or that with one '/' after a final parameter. */
  predicate IsFilling(r: Route, values: seq<string>, text: string) {
    && Balanced(r) && |values| == |r.names| && Plain(values)
    && (text == Filled(r, values) || (r.names != [] && |r.fragments| == |r.names| && text == Filled(r, values) + "/"))
  }

  lemma NoNames(r: Route, text: string, values: seq<string>)
    requires Balanced(r) && r.names == []
    ensures Exact(r, text) == Some(values) <==> IsFilling(r, values, text)
  {
    if r.fragments != [] {
      var f := r.fragments[0];
      assert f <= text && text[|f|..] == "" <==> text == f;
    }
  }

  /** A value, and what follows it. */
  lemma ValueThen(after: string, value: string, rest: string)
    requires rest == "" || rest[0] == '/'
    ensures '/' !in value && after == value + rest
            <==> value == after[..Separator(after)] && rest == after[Separator(after)..]
  {
    if '/' !in value && after == value + rest {
      SeparatorAfter(value, rest);
    } else if value == after[..Separator(after)] {
      SeparatorFirst(after);
      assert after == after[..Separator(after)] + after[Separator(after)..];
    }
  }

  /** What may follow the value of a parameter. */
  predicate IsContinuation(r: Route, values: seq<string>, rest: string) {
    if r.fragments == [] then r.names == [] && values == [] && (rest == "" || rest == "/")
    else rest != "" && rest[0] == '/' && IsFilling(r, values, rest[1..])
  }

  lemma FillingStarts(r: Route, values: seq<string>, text: string)
    requires r.names != [] && Balanced(r) && IsFilling(r, values, text)
    ensures r.fragments[0] <= text
    ensures var after := text[|r.fragments[0]|..];
            '/' !in values[0] && values[0] <= after && IsContinuation(Tail(r), values[1..], after[|values[0]|..])
  {
    var f, v, c := r.fragments[0], values[0], Continued(Tail(r), values[1..]);
    assert Balanced(Tail(r)) && Plain(values[1..]);
    if text == Filled(r, values) {
      TwoPrefixes(f, v, c, text);
    } else {
      TwoPrefixes(f, v, c + "/", text);
    }
  }

  lemma TwoPrefixes(f: string, v: string, c: string, text: string)
    requires text == f + (v + c)
    ensures f <= text && v <= text[|f|..] && text[|f|..][|v|..] == c
  {
  }

  lemma FillingFrom(r: Route, values: seq<string>, text: string)
    requires r.names != [] && Balanced(r) && values != [] && r.fragments[0] <= text
    requires '/' !in values[0] && values[0] <= text[|r.fragments[0]|..]
    requires IsContinuation(Tail(r), values[1..], text[|r.fragments[0]|..][|values[0]|..])
    ensures IsFilling(r, values, text)
  {
    var f, v, c := r.fragments[0], values[0], text[|r.fragments[0]|..][|values[0]|..];
    assert text == f + (v + c);
    assert Plain(values) by {
      assert forall i :: 0 < i < |values| ==> values[i] == values[1..][i - 1];
    }
  }

  /** One parameter of a filling: its value ends at the first separator. */
  lemma FillingStep(r: Route, values: seq<string>, text: string)
    requires r.names != [] && Balanced(r) && values != [] && r.fragments[0] <= text
    ensures var after := text[|r.fragments[0]|..];
            IsFilling(r, values, text) <==>
              values[0] == after[..Separator(after)] && IsContinuation(Tail(r), values[1..], after[Separator(after)..])
  {
    var after := text[|r.fragments[0]|..];
    ValueThen(after, values[0], after[Separator(after)..]);
    if IsFilling(r, values, text) {
      FillingStarts(r, values, text);
      ValueThen(after, values[0], after[|values[0]|..]);
    } else if values[0] == after[..Separator(after)] &&
              IsContinuation(Tail(r), values[1..], after[Separator(after)..]) {
      FillingFrom(r, values, text);
    }
  }

  /** One parameter of a match. */
  lemma CapturedStep(r: Route, values: seq<string>, text: string)
    requires r.names != [] && Balanced(r) && values != [] && r.fragments[0] <= text
    ensures var after := text[|r.fragments[0]|..];
            Exact(r, text) == Some(values) <==>
              values[0] == after[..Separator(after)]
              && ExactAfter(Tail(r), after, Separator(after)) == Some(values[1..])
  {
    assert values == [values[0]] + values[1..];
  }

  /** The exact match accepts a text, with these values, exactly when it is the route filled with them,
      where a final parameter may be followed by one '/'. */
  lemma {:induction false} ExactIff(r: Route, text: string, values: seq<string>)
    requires Balanced(r)
    ensures Exact(r, text) == Some(values) <==> IsFilling(r, values, text)
    decreases |r.fragments|, 0
  {
    if r.names == [] {
      NoNames(r, text, values);
    } else if values != [] {
      var f := r.fragments[0];
      if f <= text {
        AfterIff(Tail(r), text[|f|..], values[1..]);
        FillingStep(r, values, text);
        CapturedStep(r, values, text);
      } else {
        NotStarting(r, values, text);
      }
    }
  }

  lemma NotStarting(r: Route, values: seq<string>, text: string)
    requires r.names != [] && Balanced(r) && !(r.fragments[0] <= text)
    ensures !IsFilling(r, values, text)
  {
    if IsFilling(r, values, text) {
      FillingStarts(r, values, text);
    }
  }

  lemma {:induction false} AfterIff(r: Route, after: string, values: seq<string>)
    requires Balanced(r)
    ensures ExactAfter(r, after, Separator(after)) == Some(values)
            <==> IsContinuation(r, values, after[Separator(after)..])
    decreases |r.fragments|, 1
  {
    var sep := Separator(after);
    if sep < |after| {
      assert after[sep..][1..] == after[sep + 1..];
      ExactIff(r, after[sep + 1..], values);
    }
  }

  /** `match` accepts a text, with these values, exactly when it is a route filled with them whose
      fragments the comparison cannot tell from those of the pattern. */
  lemma CapturedIff(r: Route, text: string, values: seq<string>)
    requires Balanced(r)
    ensures Captured(r, text) == Some(values) <==> exists q :: Alike(r, q) && IsFilling(q, values, text)
  {
    if Captured(r, text) == Some(values) {
      FoundCaptures(r, text);
      ExactIff(Found(r, text), text, values);
    } else if q :| Alike(r, q) && IsFilling(q, values, text) {
      ExactIff(q, text, values);
      AlikeCaptures(r, q, text);
    }
  }

  // ---- When a NUL matters ----

  /** There is a NUL with characters behind it. */
  predicate InnerNul(f: string) { f != "" && '\0' in f[..|f| - 1] }

  predicate SomeInnerNul(r: Route) { exists i :: 0 <= i < |r.fragments| && InnerNul(r.fragments[i]) }

  lemma {:induction false} AlikeIsSame(f: string, g: string)
    requires AlikeTexts(f, g) && (!InnerNul(f) || '\0' !in g)
    ensures f == g
  {
    if f != "" {
      assert f == [f[0]] + f[1..] && g == [g[0]] + g[1..];
      assert |f| > 1 ==> f[..|f| - 1][0] == f[0];
      if f[0] != '\0' {
        assert f[1..] != "" ==> f[..|f| - 1][1..] == f[1..][..|f[1..]| - 1];
        AlikeIsSame(f[1..], g[1..]);
      }
    }
  }

  lemma AlikeRouteIsSame(r: Route, q: Route)
    requires Alike(r, q) && (!SomeInnerNul(r) || forall i :: 0 <= i < |q.fragments| ==> '\0' !in q.fragments[i])
    ensures q == r
  {
    forall i | 0 <= i < |r.fragments|
      ensures q.fragments[i] == r.fragments[i]
    {
      AlikeIsSame(r.fragments[i], q.fragments[i]);
    }
    assert q.fragments == r.fragments;
  }

  /** The fragments of a filled route are part of the text. */
  lemma {:induction false} FilledShowsFragments(r: Route, values: seq<string>, i: nat, c: char)
    requires Balanced(r) && |values| == |r.names| && i < |r.fragments| && c in r.fragments[i]
    ensures c in Filled(r, values)
    decreases |r.fragments|
  {
    if i > 0 && r.names != [] {
      FilledShowsFragments(Tail(r), values[1..], i - 1, c);
    }
  }

  lemma FillingShowsFragments(q: Route, values: seq<string>, text: string)
    requires IsFilling(q, values, text) && '\0' !in text
    ensures forall i :: 0 <= i < |q.fragments| ==> '\0' !in q.fragments[i]
  {
    forall i | 0 <= i < |q.fragments|
      ensures '\0' !in q.fragments[i]
    {
      if '\0' in q.fragments[i] {
        FilledShowsFragments(q, values, i, '\0');
      }
    }
  }

  /** Unless a fragment and the text both have a NUL that matters, only filled routes are accepted. */
  lemma CapturedPlainIff(r: Route, text: string, values: seq<string>)
    requires Balanced(r) && ('\0' !in text || !SomeInnerNul(r))
    ensures Captured(r, text) == Some(values) <==> IsFilling(r, values, text)
  {
    CapturedIff(r, text, values);
    AlikeItself(r);
    forall q | Alike(r, q) && IsFilling(q, values, text)
      ensures q == r
    {
      if '\0' !in text {
        FillingShowsFragments(q, values, text);
      }
      AlikeRouteIsSame(r, q);
    }
  }

  /** The fragment with another last character. */
  function Changed(f: string): (g: string)
    requires f != ""
    ensures |g| == |f| && g != f
  {
    var c := if f[|f| - 1] == 'a' then 'b' else 'a';
    assert (f[..|f| - 1] + [c])[|f| - 1] == c;
    f[..|f| - 1] + [c]
  }

  lemma {:induction false} ChangedAlike(f: string)
    requires InnerNul(f)
    ensures AlikeTexts(f, Changed(f))
  {
    if f[0] != '\0' {
      var front := f[..|f| - 1];
      assert front == [front[0]] + front[1..] && f[1..][..|f[1..]| - 1] == front[1..];
      ChangedAlike(f[1..]);
      assert Changed(f)[1..] == Changed(f[1..]);
    }
  }

  function Blanks(n: nat): (r: seq<string>)
    ensures |r| == n && forall i :: 0 <= i < n ==> r[i] == ""
  {
    if n == 0 then [] else [""] + Blanks(n - 1)
  }

  /** Routes with fragments of the same lengths are filled to the same text only if they are the same. */
  lemma {:induction false} FilledOnce(r: Route, q: Route, values: seq<string>)
    requires Balanced(r) && Balanced(q) && q.names == r.names && |values| == |r.names|
    requires |q.fragments| == |r.fragments|
    requires forall i :: 0 <= i < |r.fragments| ==> |q.fragments[i]| == |r.fragments[i]|
    ensures |Filled(q, values)| == |Filled(r, values)|
    ensures Filled(q, values) == Filled(r, values) ==> q.fragments == r.fragments
    decreases |r.fragments|
  {
    if r.fragments != [] && r.names != [] {
      FilledOnce(Tail(r), Tail(q), values[1..]);
      var a, b := Continued(Tail(r), values[1..]), Continued(Tail(q), values[1..]);
      SameParts(r.fragments[0], values[0], a, q.fragments[0], values[0], b);
      if Filled(q, values) == Filled(r, values) {
        assert Filled(Tail(q), values[1..]) == Filled(Tail(r), values[1..]) by {
          if Tail(r).fragments != [] {
            assert a[1..] == Filled(Tail(r), values[1..]) && b[1..] == Filled(Tail(q), values[1..]);
          }
        }
        assert r.fragments == [r.fragments[0]] + Tail(r).fragments
               && q.fragments == [q.fragments[0]] + Tail(q).fragments;
      }
    }
  }

  lemma SameParts(f: string, v: string, a: string, g: string, w: string, b: string)
    requires |f| == |g| && |v| == |w|
    ensures f + (v + a) == g + (w + b) <==> f == g && v == w && a == b
  {
    var x, y := f + (v + a), g + (w + b);
    if x == y {
      assert f == x[..|f|] && g == y[..|g|];
      assert v == x[|f|..][..|v|] && w == y[|g|..][..|w|];
      assert a == x[|f| + |v|..] && b == y[|g| + |w|..];
    }
  }

  /** The route with one fragment changed where the comparison does not look. */
  lemma ChangedRoute(r: Route, i: nat) returns (q: Route)
    requires Balanced(r) && i < |r.fragments| && InnerNul(r.fragments[i])
    ensures Alike(r, q) && Balanced(q) && q.fragments != r.fragments
    ensures forall k :: 0 <= k < |r.fragments| ==> |q.fragments[k]| == |r.fragments[k]|
  {
    q := Route(r.fragments[i := Changed(r.fragments[i])], r.names);
    ChangedAlike(r.fragments[i]);
    AlikeItself(r);
    assert q.fragments[i] != r.fragments[i];
  }

  lemma ChangedIsAccepted(r: Route, q: Route, values: seq<string>)
    requires Balanced(r) && Balanced(q) && Alike(r, q) && q.fragments != r.fragments
    requires forall k :: 0 <= k < |r.fragments| ==> |q.fragments[k]| == |r.fragments[k]|
    requires |values| == |r.names| && Plain(values)
    ensures Captured(r, Filled(q, values)) == Some(values) && !IsFilling(r, values, Filled(q, values))
  {
    var text := Filled(q, values);
    FilledOnce(r, q, values);
    assert IsFilling(q, values, text);
    CapturedIff(r, text, values);
    assert |Filled(r, values) + "/"| == |text| + 1;
  }

  /** Some text that is not a filled route is accepted if and only if a fragment has a NUL with
      characters behind it. */
  lemma NulAcceptsMoreIff(r: Route)
    requires Balanced(r)
    ensures (exists text, values :: Captured(r, text) == Some(values) && !IsFilling(r, values, text)) <==>
              SomeInnerNul(r)
  {
    if SomeInnerNul(r) {
      var i :| 0 <= i < |r.fragments| && InnerNul(r.fragments[i]);
      var q := ChangedRoute(r, i);
      ChangedIsAccepted(r, q, Blanks(|r.names|));
    } else {
      forall text, values
        ensures Captured(r, text) == Some(values) ==> IsFilling(r, values, text)
      {
        CapturedPlainIff(r, text, values);
      }
    }
  }

  // ---- Patterns ----

  /** The pattern ends with a '/' right after its last parameter. */
  predicate EndsWithSlash(rest: string, first: bool)
    decreases |rest|
  {
    match FindFrom(rest, MARKER, 0)
    case None => !first && rest == "/"
    case Some(m) => EndsWithSlash(rest[NameEnd(rest, m)..], false)
  }

  function Slash(b: bool): string { if b then "/" else "" }

  /** Taking the first parameter off a route. */
  lemma ParsedTail(rest: string, first: bool, m: nat)
    requires first || rest == "" || rest[0] == '/'
    requires FindFrom(rest, MARKER, 0) == Some(m)
    ensures var r := Parsed(rest, first);
            && r.names != [] && Tail(r) == Parsed(rest[NameEnd(rest, m)..], false)
            && rest[..m + 1] == (if first then "" else "/") + r.fragments[0]
  {
    var r, more := Parsed(rest, first), Parsed(rest[NameEnd(rest, m)..], false);
    assert r.fragments[1..] == more.fragments && r.names[1..] == more.names;
  }

  lemma InstanceStep(rest: string, values: seq<string>, m: nat)
    requires FindFrom(rest, MARKER, 0) == Some(m) && values != []
    ensures Instance(rest, values) == rest[..m + 1] + values[0] + Instance(rest[NameEnd(rest, m)..], values[1..])
  {
  }

  /** The text of a filled route or of a continuation. */
  function FilledText(r: Route, values: seq<string>, first: bool): string
    requires Balanced(r) && |values| == |r.names|
  {
    if first then Filled(r, values) else Continued(r, values)
  }

  lemma TextStep(r: Route, values: seq<string>, first: bool)
    requires Balanced(r) && |values| == |r.names| && r.names != []
    ensures FilledText(r, values, first) ==
            (if first then "" else "/") + (r.fragments[0] + (values[0] + FilledText(Tail(r), values[1..], false)))
  {
    var filled := r.fragments[0] + (values[0] + Continued(Tail(r), values[1..]));
    assert Filled(r, values) == filled;
    Empty(filled);
  }

  lemma Empty(s: string)
    ensures "" + s == s + "" == s
  {
  }

  lemma InstanceLeaf(rest: string, first: bool)
    requires first || rest == "" || rest[0] == '/'
    requires FindFrom(rest, MARKER, 0).None?
    ensures rest == FilledText(Parsed(rest, first), [], first) + Slash(EndsWithSlash(rest, first))
  {
    Empty(rest);
    var r := Parsed(rest, first);
    if !first && |rest| > 1 {
      assert rest == "/" + rest[1..];
      assert Filled(r, []) == rest[1..];
    }
  }

  /** The filled route is the pattern with its parameters replaced, without a '/' at the very end after a
      parameter. */
  lemma {:induction false} InstanceIsFilled(rest: string, first: bool, values: seq<string>)
    requires first || rest == "" || rest[0] == '/'
    requires |values| == |Parsed(rest, first).names|
    ensures Instance(rest, values) == FilledText(Parsed(rest, first), values, first) + Slash(EndsWithSlash(rest, first))
    decreases |rest|
  {
    match FindFrom(rest, MARKER, 0)
    case None => InstanceLeaf(rest, first);
    case Some(m) =>
      var end := NameEnd(rest, m);
      ParsedTail(rest, first, m);
      InstanceIsFilled(rest[end..], false, values[1..]);
      InstanceStep(rest, values, m);
      var r := Parsed(rest, first);
      TextStep(r, values, first);
      Regroup(if first then "" else "/", r.fragments[0], values[0], FilledText(Tail(r), values[1..], false),
              Slash(EndsWithSlash(rest, first)));
  }

  lemma Regroup(a: string, f: string, v: string, c: string, z: string)
    ensures a + f + v + (c + z) == a + (f + (v + c)) + z
  {
  }

  lemma EndsMeans(rest: string, first: bool)
    requires first || rest == "" || rest[0] == '/'
    ensures EndsWithSlash(rest, first) ==>
              |Parsed(rest, first).fragments| == |Parsed(rest, first).names|
              && (first ==> Parsed(rest, first).names != [])
    decreases |rest|
  {
    match FindFrom(rest, MARKER, 0)
    case None =>
    case Some(m) => EndsMeans(rest[NameEnd(rest, m)..], false);
  }

  /** The last fragment of the pattern is in front of its last parameter. */
  predicate EndsInParameter(pattern: string) {
    var r := Parsed(pattern, true);
    r.names != [] && |r.fragments| == |r.names|
  }

  /** A path is accepted with some values exactly when they are free of '/', there is one for each
      parameter, and the path is the pattern filled with them, up to one '/' after a final parameter,
      unless the path has a NUL and so has a fragment of the pattern, in front of other characters. */
  lemma AcceptedIff(pattern: string, path: string, values: seq<string>)
    requires '\0' !in path || !SomeInnerNul(Parsed(pattern, true))
    ensures var filled := Instance(pattern, values);
            Captured(Parsed(pattern, true), path) == Some(values) <==>
              && |values| == |Parsed(pattern, true).names| && Plain(values)
              && (path == filled
                  || (EndsInParameter(pattern) && !EndsWithSlash(pattern, true) && path == filled + "/")
                  || (EndsWithSlash(pattern, true) && path + "/" == filled))
  {
    var r := Parsed(pattern, true);
    CapturedPlainIff(r, path, values);
    if |values| == |r.names| {
      FillingIsInstance(pattern, path, values, Filled(r, values));
    }
  }

  lemma FillingIsInstance(pattern: string, path: string, values: seq<string>, f: string)
    requires |values| == |Parsed(pattern, true).names| && f == Filled(Parsed(pattern, true), values)
    ensures var filled := Instance(pattern, values);
            (path == f || (EndsInParameter(pattern) && path == f + "/")) <==>
              || path == filled
              || (EndsInParameter(pattern) && !EndsWithSlash(pattern, true) && path == filled + "/")
              || (EndsWithSlash(pattern, true) && path + "/" == filled)
  {
    EndsMeans(pattern, true);
    InstanceIsFilled(pattern, true, values);
    assert Instance(pattern, values) == f + Slash(EndsWithSlash(pattern, true));
    if EndsWithSlash(pattern, true) {
      SameEnding(path, f);
    } else {
      assert f + "" == f;
    }
  }

  lemma SameEnding(a: string, b: string)
    ensures a + "/" == b + "/" <==> a == b
  {
    if a + "/" == b + "/" {
      assert a == (a + "/")[..|a|] == (b + "/")[..|b|];
    }
  }

  // ---- The program ----

  predicate Distinct(s: seq<string>) {
    s == [] || (Distinct(s[..|s| - 1]) && s[|s| - 1] !in s[..|s| - 1])
  }

  lemma {:induction false} PrefixDistinct(s: seq<string>, k: nat)
    requires k <= |s| && Distinct(s)
    ensures Distinct(s[..k])
    decreases |s|
  {
    if k == |s| {
      assert s[..k] == s;
    } else {
      PrefixDistinct(s[..|s| - 1], k);
      assert s[..|s| - 1][..k] == s[..k];
    }
  }

  lemma RepeatedName(names: seq<string>, name: string, more: seq<string>)
    requires name in names
    ensures !Distinct(names + ([name] + more))
  {
    var all := names + ([name] + more);
    assert all[..|names| + 1] == names + [name];
    assert (names + [name])[..|names|] == names;
    if Distinct(all) {
      PrefixDistinct(all, |names| + 1);
    }
  }

  /** Searching from a position is searching what starts there. */
  lemma {:induction false} FindShift(s: string, p: string, from: nat, i: nat)
    requires from <= i && from <= |s|
    ensures FindFrom(s[from..], p, i - from) ==
            if FindFrom(s, p, i).Some? then Some(FindFrom(s, p, i).value - from) else None
    decreases |s| - i
  {
    OccursShift(s, p, from, i);
    if i + |p| <= |s| && !OccursAt(s, p, i) {
      FindShift(s, p, from, i + 1);
    }
  }

  lemma OccursShift(s: string, p: string, from: nat, i: nat)
    requires from <= i && from <= |s|
    ensures OccursAt(s[from..], p, i - from) <==> OccursAt(s, p, i)
  {
    if i + |p| <= |s| {
      assert s[from..][i - from..i - from + |p|] == s[i..i + |p|];
    }
  }

  /** The pattern ends, or a parameter does, just in front of `end`. */
  predicate IsParameterEnd(pattern: string, end: nat) {
    end == 0 || (end <= |pattern| + 1 && (end <= |pattern| ==> pattern[end - 1] == '/'))
  }

  /** What is left to parse when the last parameter ended just in front of `end`. */
  function ParsedAt(pattern: string, end: nat): Route
    requires IsParameterEnd(pattern, end)
  {
    if end == 0 then Parsed(pattern, true) else Parsed(pattern[end - 1..], false)
  }

  function Joined(a: Route, b: Route): Route {
    Route(a.fragments + b.fragments, a.names + b.names)
  }

  /** `whole` starts with this fragment and this name, and goes on with `more`. */
  predicate Precedes(fragment: string, name: string, more: Route, whole: Route) {
    whole == Route([fragment] + more.fragments, [name] + more.names)
  }

  lemma JoinedStep(a: Route, fragment: string, name: string, b: Route)
    ensures Joined(a, Route([fragment] + b.fragments, [name] + b.names))
            == Joined(Route(a.fragments + [fragment], a.names + [name]), b)
  {
  }

  lemma NameEndAt(pattern: string, from: nat, m: nat)
    requires from <= m && m + 2 <= |pattern|
    ensures NameEnd(pattern[from..], m - from) == m + 2 + Separator(pattern[m + 2..]) - from
  {
    SliceFrom(pattern, from, m - from + 2);
  }

  /** The parts of a parameter, counted from `from` instead of from the start of the pattern. */
  lemma CountedFrom(pattern: string, from: nat, m: nat, next: nat, rest: string)
    requires from <= m && m + 2 < next <= |pattern| + 1 && rest == pattern[from..]
    ensures rest[1..m + 1 - from] == pattern[from + 1..m + 1]
    ensures rest[m + 2 - from..next - 1 - from] == pattern[m + 2..next - 1]
    ensures rest[next - 1 - from..] == pattern[next - 1..]
  {
    SliceFrom(pattern, from, next - 1 - from);
    Slice(pattern, from, 1, m + 1 - from);
    Slice(pattern, from, m + 2 - from, next - 1 - from);
  }

  lemma FoundFrom(pattern: string, from: nat, m: nat)
    requires from <= |pattern| && FindFrom(pattern, MARKER, from) == Some(m)
    ensures from <= m && FindFrom(pattern[from..], MARKER, 0) == Some(m - from)
  {
    FindShift(pattern, MARKER, from, from);
  }

  /** One round of the constructor. */
  lemma ParsedAtStep(pattern: string, end: nat, fragment: string, m: nat, start: nat, name: string, next: nat)
    requires IsParameterEnd(pattern, end)
    requires FindFrom(pattern, MARKER, if end == 0 then 0 else end - 1) == Some(m)
    requires start == m + 2 && next == start + Separator(pattern[start..]) + 1
    requires end <= m + 1 && fragment == pattern[end..m + 1] && name == pattern[start..next - 1]
    ensures IsParameterEnd(pattern, next)
    ensures Precedes(fragment, name, ParsedAt(pattern, next), ParsedAt(pattern, end))
  {
    if end == 0 {
      ParsedStep(pattern, true, fragment, m, name, next - 1, pattern[next - 1..]);
    } else {
      ParsedLater(pattern, end - 1, fragment, m, name, next, pattern[end - 1..], pattern[next - 1..]);
    }
  }

  lemma ParsedLater(pattern: string, from: nat, fragment: string, m: nat, name: string, next: nat, rest: string,
                    after: string)
    requires from <= |pattern| && (from < |pattern| ==> pattern[from] == '/')
    requires FindFrom(pattern, MARKER, from) == Some(m)
    requires next == m + 2 + Separator(pattern[m + 2..]) + 1
    requires fragment == pattern[from + 1..m + 1] && name == pattern[m + 2..next - 1]
    requires rest == pattern[from..] && after == pattern[next - 1..]
    ensures after == "" || after[0] == '/'
    ensures Precedes(fragment, name, Parsed(after, false), Parsed(rest, false))
  {
    FoundFrom(pattern, from, m);
    NameEndAt(pattern, from, m);
    CountedFrom(pattern, from, m, next, rest);
    ParsedStep(rest, false, fragment, m - from, name, next - 1 - from, after);
  }

  lemma ParsedStep(rest: string, first: bool, fragment: string, m: nat, name: string, end: nat, after: string)
    requires first || rest == "" || rest[0] == '/'
    requires FindFrom(rest, MARKER, 0) == Some(m) && end == NameEnd(rest, m) && after == rest[end..]
    requires fragment == rest[(if first then 0 else 1)..m + 1] && name == rest[m + 2..end]
    ensures Precedes(fragment, name, Parsed(after, false), Parsed(rest, first))
  {
  }

  lemma SliceFrom(s: string, from: nat, a: nat)
    requires from + a <= |s|
    ensures s[from..][a..] == s[from + a..]
  {
  }

  lemma Slice(s: string, from: nat, a: nat, b: nat)
    requires a <= b && from + b <= |s|
    ensures s[from..][a..b] == s[from + a..from + b]
  {
  }

  lemma ParsedAtEnd(pattern: string, end: nat)
    requires IsParameterEnd(pattern, end)
    requires FindFrom(pattern, MARKER, if end == 0 then 0 else end - 1).None?
    ensures ParsedAt(pattern, end) == Route(if end < |pattern| then [pattern[end..]] else [], [])
  {
    if end > 0 {
      FindShift(pattern, MARKER, end - 1, end - 1);
      assert end <= |pattern| ==> pattern[end - 1..][1..] == pattern[end..];
    }
  }

  lemma ParsingJoin(whole: Route, rest: Route, fragments: seq<string>, names: seq<string>, fragment: string,
                    name: string,                     more: Route)
    requires whole == Joined(Route(fragments, names), rest) && Precedes(fragment, name, more, rest)
    ensures whole == Joined(Route(fragments + [fragment], names + [name]), more)
    ensures name in names ==> !Distinct(whole.names)
  {
    JoinedStep(Route(fragments, names), fragment, name, more);
    if name in names {
      RepeatedName(names, name, more.names);
    }
  }

  /** One parameter of a pattern: its fragment, its name and where it ends. */
  method NextParameter(pattern: string, end: nat, m: nat) returns (fragment: string, name: string, next: nat)
    requires IsParameterEnd(pattern, end)
    requires FindFrom(pattern, MARKER, if end == 0 then 0 else end - 1) == Some(m)
    ensures end < next && IsParameterEnd(pattern, next)
    ensures Precedes(fragment, name, ParsedAt(pattern, next), ParsedAt(pattern, end))
  {
    var start := m + |MARKER|;
    next := start + Separator(pattern[start..]) + 1;
    fragment, name := pattern[end..m + 1], pattern[start..next - 1];
    ParsedAtStep(pattern, end, fragment, m, start, name, next);
  }

  /** The constructor; a parameter name that comes twice makes it throw. */
  method Build(pattern: string) returns (route: Option<Route>)
    ensures route == if Distinct(Parsed(pattern, true).names) then Some(Parsed(pattern, true)) else None
  {
    var end: nat := 0;
    var fragments, names := [], [];
    var nameSet: set<string> := {};
    ghost var whole := Parsed(pattern, true);
    // What is left to parse.
    ghost var rest := whole;
    assert Joined(Route([], []), whole) == whole;
    var marker := FindFrom(pattern, MARKER, 0);
    while marker.Some?
      invariant IsParameterEnd(pattern, end) && rest == ParsedAt(pattern, end)
      invariant whole == Joined(Route(fragments, names), rest)
      invariant marker == FindFrom(pattern, MARKER, if end == 0 then 0 else end - 1)
      invariant Distinct(names) && forall n :: n in nameSet <==> n in names
      decreases |pattern| + 1 - end
    {
      var fragment, name, next := NextParameter(pattern, end, marker.value);
      ParsingJoin(whole, rest, fragments, names, fragment, name, ParsedAt(pattern, next));
      rest := ParsedAt(pattern, next);
      if name in nameSet {
        return None;
      }
      assert (names + [name])[..|names|] == names;
      fragments, names, nameSet, end := fragments + [fragment], names + [name], nameSet + {name}, next;
      marker := FindFrom(pattern, MARKER, end - 1);
    }
    ParsedAtEnd(pattern, end);
    fragments := fragments + (if end < |pattern| then [pattern[end..]] else []);
    assert names + [] == names;
    return Some(Route(fragments, names));
  }

  /** What is left of a route after `i` fragments. */
  function RouteFrom(r: Route, i: nat): Route
    requires i <= |r.fragments|
  {
    Route(r.fragments[i..], if i < |r.names| then r.names[i..] else [])
  }

  /** What is left of a match at a position, which may be one past the end. */
  function CapturedAt(r: Route, path: string, pos: nat): Option<seq<string>>
    requires pos <= |path| + 1
  {
    if pos <= |path| then Captured(r, path[pos..])
    else if r.fragments == [] then Some([]) else None
  }

  function Prefixed(front: seq<string>, o: Option<seq<string>>): Option<seq<string>> {
    match o case None => None case Some(values) => Some(front + values)
  }

  lemma RouteFromTail(r: Route, i: nat)
    requires i < |r.fragments| && Balanced(r)
    ensures Tail(RouteFrom(r, i)) == RouteFrom(r, i + 1)
  {
  }

  lemma MatchFragment(r: Route, i: nat, path: string, pos: nat)
    requires i < |r.fragments| && Balanced(r) && pos + |r.fragments[i]| <= |path|
    requires SameUpToNul(path[pos..], r.fragments[i]) && i >= |r.names|
    ensures CapturedAt(RouteFrom(r, i), path, pos) == CapturedAt(RouteFrom(r, i + 1), path, pos + |r.fragments[i]|)
  {
    RouteFromTail(r, i);
    SliceFrom(path, pos, |r.fragments[i]|);
  }

  lemma MatchFails(r: Route, i: nat, path: string, pos: nat)
    requires i < |r.fragments| && pos <= |path| + 1
    requires pos + |r.fragments[i]| > |path| || !SameUpToNul(path[pos..], r.fragments[i])
    ensures CapturedAt(RouteFrom(r, i), path, pos).None?
  {
  }

  lemma CapturedUnfold(r: Route, text: string, after: string, sep: nat, tail: Route)
    requires r.fragments != [] && r.names != [] && |r.fragments[0]| <= |text| && SameUpToNul(text, r.fragments[0])
    requires after == text[|r.fragments[0]|..] && sep == Separator(after) && tail == Tail(r)
    ensures Captures(after[..sep], AfterParameter(tail, after, sep), Captured(r, text))
  {
  }

  /** A fragment at a position, and the parameter after it. */
  lemma MatchParameter(r: Route, i: nat, path: string, pos: nat, after: string, sep: nat, next: nat)
    requires i < |r.names| && i < |r.fragments| && Balanced(r) && pos + |r.fragments[i]| <= |path|
    requires SameUpToNul(path[pos..], r.fragments[i]) && next == pos + |r.fragments[i]| + sep + 1
    requires after == path[pos + |r.fragments[i]|..] && sep == Separator(after)
    ensures Captures(after[..sep], CapturedAt(RouteFrom(r, i + 1), path, next), CapturedAt(RouteFrom(r, i), path, pos))
  {
    RouteFromHead(r, i);
    MatchHere(RouteFrom(r, i), RouteFrom(r, i + 1), path, pos, pos + |r.fragments[i]|, after, sep, next);
  }

  lemma RouteFromHead(r: Route, i: nat)
    requires i < |r.fragments| && i < |r.names| && Balanced(r)
    ensures var here := RouteFrom(r, i);
            here.fragments != [] && here.names != [] && here.fragments[0] == r.fragments[i]
            && RouteFrom(r, i + 1) == Tail(here)
  {
  }

  lemma MatchHere(here: Route, more: Route, path: string, pos: nat, start: nat, after: string, sep: nat, next: nat)
    requires here.fragments != [] && here.names != [] && more == Tail(here)
    requires start == pos + |here.fragments[0]| <= |path| && SameUpToNul(path[pos..], here.fragments[0])
    requires after == path[start..] && sep == Separator(after) && next == start + sep + 1
    ensures Captures(after[..sep], CapturedAt(more, path, next), CapturedAt(here, path, pos))
  {
    AfterAt(more, path, start, sep, after, next);
    assert path[pos..][start - pos..] == after;
    CapturedUnfold(here, path[pos..], after, sep, more);
  }

  /** A match that captures `value` and then goes on with `after`. */
  predicate Captures(value: string, after: Option<seq<string>>, whole: Option<seq<string>>) {
    whole == Prefixed([value], after)
  }

  lemma AfterAt(r: Route, path: string, start: nat, sep: nat, after: string, next: nat)
    requires start <= |path| && after == path[start..] && sep <= |after| && next == start + sep + 1
    ensures AfterParameter(r, after, sep) == CapturedAt(r, path, next)
  {
    if sep < |after| {
      assert after[sep + 1..] == path[next..];
    }
  }

  lemma MatchStart(r: Route, path: string)
    requires Balanced(r)
    ensures Prefixed([], CapturedAt(RouteFrom(r, 0), path, 0)) == Captured(r, path)
  {
    assert path[0..] == path && RouteFrom(r, 0) == r;
    if Captured(r, path).Some? {
      assert [] + Captured(r, path).value == Captured(r, path).value;
    }
  }

  lemma PrefixedTwice(a: seq<string>, b: seq<string>, o: Option<seq<string>>)
    ensures Prefixed(a, Prefixed(b, o)) == Prefixed(a + b, o)
  {
    if o.Some? {
      assert a + (b + o.value) == a + b + o.value;
    }
  }

  /** The map of the captured values. */
  ghost predicate Carries(params: map<string, string>, names: seq<string>, values: seq<string>) {
    && |names| == |values|
    && (forall k :: 0 <= k < |names| ==> names[k] in params && params[names[k]] == values[k])
    && (forall n :: n in params ==> n in names)
  }

  lemma CarriesMore(params: map<string, string>, names: seq<string>, values: seq<string>, name: string, value: string)
    requires Carries(params, names, values) && name !in names
    ensures Carries(params[name := value], names + [name], values + [value])
  {
  }

  lemma NewName(names: seq<string>, i: nat)
    requires i < |names| && Distinct(names)
    ensures names[..i + 1] == names[..i] + [names[i]] && names[i] !in names[..i]
  {
    PrefixDistinct(names, i + 1);
    assert names[..i + 1][..i] == names[..i];
  }

  /** The values so far, and what is left to match. */
  ghost predicate Matching(whole: Option<seq<string>>, r: Route, path: string, i: nat, pos: nat, values: seq<string>,
                           params: map<string, string>)
  {
    && i <= |r.fragments| && pos <= |path| + 1
    && whole == Prefixed(values, CapturedAt(RouteFrom(r, i), path, pos))
    && Carries(params, r.names[..if i < |r.names| then i else |r.names|], values)
  }

  lemma MatchingStarts(r: Route, path: string)
    requires Balanced(r)
    ensures Matching(Captured(r, path), r, path, 0, 0, [], map[])
  {
    MatchStart(r, path);
  }

  lemma MatchingFragment(whole: Option<seq<string>>, r: Route, path: string, i: nat, pos: nat, values: seq<string>,
                         params: map<string, string>)
    requires Balanced(r) && Matching(whole, r, path, i, pos, values, params) && |r.names| <= i < |r.fragments|
    requires pos + |r.fragments[i]| <= |path| && SameUpToNul(path[pos..], r.fragments[i])
    ensures Matching(whole, r, path, i + 1, pos + |r.fragments[i]|, values, params)
  {
    MatchFragment(r, i, path, pos);
  }

  lemma MatchingParameter(whole: Option<seq<string>>, r: Route, path: string, i: nat, pos: nat, values: seq<string>,
                          params: map<string, string>, after: string, sep: nat, next: nat, more: map<string, string>)
    requires Balanced(r) && Distinct(r.names) && Matching(whole, r, path, i, pos, values, params)
    requires i < |r.fragments| && i < |r.names|
    requires pos + |r.fragments[i]| <= |path| && SameUpToNul(path[pos..], r.fragments[i])
    requires after == path[pos + |r.fragments[i]|..] && sep == Separator(after)
    requires Carries(more, r.names[..i] + [r.names[i]], values + [after[..sep]])
    requires next == pos + |r.fragments[i]| + sep + 1
    ensures Matching(whole, r, path, i + 1, next, values + [after[..sep]], more)
  {
    MatchParameter(r, i, path, pos, after, sep, next);
    PrefixedTwice(values, [after[..sep]], CapturedAt(RouteFrom(r, i + 1), path, next));
    NewName(r.names, i);
  }

  lemma MatchingFails(whole: Option<seq<string>>, r: Route, path: string, i: nat, pos: nat, values: seq<string>,
                      params: map<string, string>)
    requires Matching(whole, r, path, i, pos, values, params) && i < |r.fragments|
    requires pos + |r.fragments[i]| > |path| || !SameUpToNul(path[pos..], r.fragments[i])
    ensures whole.None?
  {
    MatchFails(r, i, path, pos);
  }

  lemma MatchingEnds(whole: Option<seq<string>>, r: Route, path: string, pos: nat, values: seq<string>,
                     params: map<string, string>)
    requires Balanced(r) && Matching(whole, r, path, |r.fragments|, pos, values, params)
    ensures pos >= |path| <==> whole.Some?
    ensures pos >= |path| ==> Carries(params, r.names, whole.value)
  {
    MatchEnd(r, path, pos, values);
    assert r.names[..|r.names|] == r.names;
  }

  /** The value behind a fragment, up to the next '/' or the end of the path. */
  method TakeParameter(ghost whole: Option<seq<string>>, r: Route, path: string, i: nat, pos: nat,
                       ghost values: seq<string>, params: map<string, string>)
    returns (more: map<string, string>, next: nat, ghost longer: seq<string>)
    requires Balanced(r) && Distinct(r.names) && Matching(whole, r, path, i, pos, values, params)
    requires i < |r.fragments| && i < |r.names|
    requires pos + |r.fragments[i]| <= |path| && SameUpToNul(path[pos..], r.fragments[i])
    ensures Matching(whole, r, path, i + 1, next, longer, more)
  {
    var after := path[pos + |r.fragments[i]|..];
    var sep := Separator(after);
    NewName(r.names, i);
    more := Emplace(params, r.names[..i], values, r.names[i], after[..sep]);
    longer := values + [after[..sep]];
    next := pos + |r.fragments[i]| + sep + 1;
    MatchingParameter(whole, r, path, i, pos, values, params, after, sep, next, more);
  }

  /** `match`: accepts exactly what the route accepts, and maps each name to its value. */
  method Match(r: Route, path: string) returns (ok: bool, params: map<string, string>)
    requires Balanced(r) && Distinct(r.names)
    ensures ok == Captured(r, path).Some?
    ensures ok ==> Carries(params, r.names, Captured(r, path).value)
  {
    params := map[];
    var pos: nat := 0;
    var i := 0;
    ghost var whole, values: seq<string> := Captured(r, path), [];
    MatchingStarts(r, path);
    while i < |r.fragments|
      invariant Matching(whole, r, path, i, pos, values, params)
    {
      var f := r.fragments[i];
      if pos + |f| > |path| || !SameUpToNul(path[pos..], f) {
        MatchingFails(whole, r, path, i, pos, values, params);
        return false, params;
      }
      if i >= |r.names| {
        MatchingFragment(whole, r, path, i, pos, values, params);
        pos := pos + |f|;
      } else {
        params, pos, values := TakeParameter(whole, r, path, i, pos, values, params);
      }
      i := i + 1;
    }
    MatchingEnds(whole, r, path, pos, values, params);
    ok := pos >= |path|;
  }

  lemma MatchEnd(r: Route, path: string, pos: nat, values: seq<string>)
    requires pos <= |path| + 1
    ensures Prefixed(values, CapturedAt(RouteFrom(r, |r.fragments|), path, pos))
            == if pos >= |path| then Some(values) else None
  {
    assert values + [] == values;
    assert RouteFrom(r, |r.fragments|).fragments == [];
  }

  /** `emplace` into the map of parameters. */
  method Emplace(params: map<string, string>, ghost names: seq<string>, ghost values: seq<string>, name: string,
                 value: string)
    returns (after: map<string, string>)
    requires Carries(params, names, values) && name !in names
    ensures Carries(after, names + [name], values + [value])
  {
    CarriesMore(params, names, values, name, value);
    after := params;
    if name !in params {
      after := params[name := value];
    }
  }
}
