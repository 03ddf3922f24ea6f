/** `BESUtil::explode` and `BESUtil::implode`: delimited values, some of them quoted. */
module Explode {
  import opened Options

  datatype Error = NoEndQuote | NoDelimiterAfterQuote

  datatype Result<+T> = Ok(value: T) | Err(error: Error)

  // ---- The scanner ----

  /** The first delimiter, or the end of the text. */
  function FirstDelimiter(s: string, delim: char): (r: nat)
    ensures r <= |s| && (r < |s| ==> s[r] == delim)
  {
    if s == "" || s[0] == delim then 0 else 1 + FirstDelimiter(s[1..], delim)
  }

  /** A quote ends the value unless one backslash, and not two, is in front of it. */
  predicate EndsQuote(s: string, q: nat) {
    0 < q < |s| && s[q] == '"' && (s[q - 1] != '\\' || (q > 1 && s[q - 2] == '\\'))
  }

  /** One past the quote that ends a quoted value, looking from `q` on. */
  function CloseQuote(s: string, q: nat): (r: Option<nat>)
    ensures r.Some? ==> q < r.value <= |s|
    decreases |s| - q
  {
    if q >= |s| then None
    else if EndsQuote(s, q) then Some(q + 1)
    else CloseQuote(s, q + 1)
  }

  /** Where the first value of a text ends. */
  function ValueEnd(s: string, delim: char): (r: Result<nat>)
    requires s != ""
    ensures r.Ok? ==> r.value <= |s| && (r.value < |s| ==> s[r.value] == delim)
  {
    if s[0] == '"' then
      match CloseQuote(s, 1)
      case None => Err(NoEndQuote)
      case Some(end) => if end < |s| && s[end] != delim then Err(NoDelimiterAfterQuote) else Ok(end)
    else Ok(FirstDelimiter(s, delim))
  }

  /** All values of a text; the empty text has two. */
  function Exploded(s: string, delim: char): Result<seq<string>> {
    if s == "" then Ok(["", ""])
    else
      match ValueEnd(s, delim)
      case Err(e) => Err(e)
      case Ok(end) =>
        if end == |s| then Ok([s])
        else if end + 1 == |s| then Ok([s[..end], ""])
        else
          match Exploded(s[end + 1..], delim)
          case Err(e) => Err(e)
          case Ok(values) => Ok([s[..end]] + values)
  }

  // ---- The printer ----

  /** `implode` refuses a value that has the delimiter and does not start with a quote. */
  predicate Printable(value: string, delim: char) {
    FirstDelimiter(value, delim) == |value| || value[0] == '"'
  }

  predicate AllPrintable(values: seq<string>, delim: char) {
    values == [] || (Printable(values[0], delim) && AllPrintable(values[1..], delim))
  }

  function Joined(values: seq<string>, delim: char): string {
    if values == [] then ""
    else if |values| == 1 then values[0]
    else values[0] + ([delim] + Joined(values[1..], delim))
  }

  function Imploded(values: seq<string>, delim: char): Option<string> {
    if AllPrintable(values, delim) then Some(Joined(values, delim)) else None
  }

  // ---- Inverse ----

  /** A value the scanner reads as a whole: without the delimiter and without a quote in front, or quoted
      up to its end. */
  predicate Complete(value: string, delim: char) {
    if value != "" && value[0] == '"' then CloseQuote(value, 1) == Some(|value|)
    else FirstDelimiter(value, delim) == |value|
  }

  predicate AllComplete(values: seq<string>, delim: char) {
    values == [] || (Complete(values[0], delim) && AllComplete(values[1..], delim))
  }

  lemma {:induction false} FirstDelimiterPrefix(value: string, rest: string, delim: char)
    requires rest == "" || rest[0] == delim
    ensures FirstDelimiter(value, delim) == |value| ==> FirstDelimiter(value + rest, delim) == |value|
  {
    if value == "" {
      assert value + rest == rest;
    } else {
      FirstDelimiterPrefix(value[1..], rest, delim);
      assert (value + rest)[1..] == value[1..] + rest;
    }
  }

  lemma {:induction false} FirstDelimiterTake(s: string, delim: char)
    ensures FirstDelimiter(s[..FirstDelimiter(s, delim)], delim) == FirstDelimiter(s, delim)
  {
    if s != "" && s[0] != delim {
      FirstDelimiterTake(s[1..], delim);
      var k := FirstDelimiter(s[1..], delim);
      assert s[..k + 1][1..] == s[1..][..k];
    }
  }

  /** The scan of a quoted value does not look past its end. */
  lemma {:induction false} CloseQuotePrefix(s: string, e: nat, q: nat)
    requires e <= |s|
    ensures CloseQuote(s[..e], q) ==
            if CloseQuote(s, q).Some? && CloseQuote(s, q).value <= e then CloseQuote(s, q) else None
    decreases |s| - q
  {
    if q < e {
      assert EndsQuote(s[..e], q) == EndsQuote(s, q);
      CloseQuotePrefix(s, e, q + 1);
    }
  }

  /** A complete value, followed by nothing or by a delimiter, is read back. */
  lemma CompleteEnds(value: string, rest: string, delim: char)
    requires Complete(value, delim) && delim != '"' && value + rest != "" && (rest == "" || rest[0] == delim)
    ensures ValueEnd(value + rest, delim) == Ok(|value|)
  {
    var s := value + rest;
    assert s[..|value|] == value;
    if value != "" && value[0] == '"' {
      CloseQuotePrefix(s, |value|, 1);
    } else {
      FirstDelimiterPrefix(value, rest, delim);
    }
  }

  /** What the scanner reads is complete. */
  lemma EndsComplete(s: string, delim: char)
    requires s != "" && ValueEnd(s, delim).Ok?
    ensures Complete(s[..ValueEnd(s, delim).value], delim)
  {
    var end := ValueEnd(s, delim).value;
    if s[0] == '"' {
      CloseQuotePrefix(s, end, 1);
    } else {
      FirstDelimiterTake(s, delim);
    }
  }

  /** Complete values that are printed as this text. */
  predicate Reads(values: seq<string>, s: string, delim: char) {
    values != [] && AllComplete(values, delim) && Joined(values, delim) == s
  }

  lemma ReadsOne(v: string, delim: char)
    requires Complete(v, delim)
    ensures Reads([v], v, delim)
  {
  }

  lemma ReadsMore(v: string, more: seq<string>, t: string, delim: char)
    requires Complete(v, delim) && Reads(more, t, delim)
    ensures Reads([v] + more, v + ([delim] + t), delim)
  {
    assert ([v] + more)[1..] == more;
  }

  lemma SplitAt(s: string, end: nat, delim: char)
    requires end < |s| && s[end] == delim
    ensures s == s[..end] + ([delim] + s[end + 1..])
  {
  }

  /** The values of a text are complete, and printed as the text. */
  lemma {:induction false} ExplodedComplete(s: string, delim: char)
    requires Exploded(s, delim).Ok?
    ensures Reads(Exploded(s, delim).value, if s == "" then [delim] else s, delim)
  {
    ReadsOne("", delim);
    if s == "" {
      ReadsMore("", [""], "", delim);
    } else {
      EndsComplete(s, delim);
      var end := ValueEnd(s, delim).value;
      if end == |s| {
        assert s[..end] == s;
        ReadsOne(s, delim);
      } else {
        SplitAt(s, end, delim);
        if end + 1 == |s| {
          ReadsMore(s[..end], [""], "", delim);
        } else {
          ExplodedComplete(s[end + 1..], delim);
          ReadsMore(s[..end], Exploded(s[end + 1..], delim).value, s[end + 1..], delim);
        }
      }
    }
  }

  lemma {:induction false} CompletePrintable(values: seq<string>, delim: char)
    requires AllComplete(values, delim)
    ensures AllPrintable(values, delim)
  {
    if values != [] {
      CompletePrintable(values[1..], delim);
    }
  }

  /** Printing the values of a text gives it back, exactly when it is not empty: the empty text becomes two
      values, which are printed as one delimiter. */
  lemma ExplodeThenImplode(s: string, delim: char)
    requires Exploded(s, delim).Ok?
    ensures Imploded(Exploded(s, delim).value, delim) == Some(s) <==> s != ""
  {
    ExplodedComplete(s, delim);
    CompletePrintable(Exploded(s, delim).value, delim);
  }

  lemma {:induction false} CompleteExploded(values: seq<string>, delim: char)
    requires delim != '"' && values != [] && values != [""] && AllComplete(values, delim)
    ensures Exploded(Joined(values, delim), delim) == Ok(values)
  {
    var v, more := values[0], values[1..];
    if more == [] {
      assert v + "" == v && values == [v];
      CompleteEnds(v, "", delim);
    } else {
      var t := Joined(more, delim);
      var s := v + ([delim] + t);
      CompleteEnds(v, [delim] + t, delim);
      assert s[..|v|] == v && s[|v| + 1..] == t && values == [v] + more;
      if more == [""] {
        assert values == [v, ""];
      } else {
        JoinedNonEmpty(more, delim);
        CompleteExploded(more, delim);
      }
    }
  }

  lemma JoinedNonEmpty(values: seq<string>, delim: char)
    requires values != [] && values != [""]
    ensures Joined(values, delim) != ""
  {
    assert |values| == 1 ==> values == [values[0]];
  }

  /** Reading back printed values gives the same values exactly when they are all complete and are not the
      empty list or one empty value. */
  lemma ImplodeThenExplode(values: seq<string>, delim: char)
    requires delim != '"'
    ensures Exploded(Joined(values, delim), delim) == Ok(values)
            <==> values != [] && values != [""] && AllComplete(values, delim)
  {
    if values != [] && values != [""] && AllComplete(values, delim) {
      CompleteExploded(values, delim);
    } else if Exploded(Joined(values, delim), delim) == Ok(values) {
      ExplodedComplete(Joined(values, delim), delim);
    }
  }

  /** A text is accepted if and only if it is complete values, printed. */
  lemma AcceptedIff(s: string, delim: char)
    requires delim != '"'
    ensures Exploded(s, delim).Ok? <==> exists values :: Reads(values, s, delim)
  {
    if s == "" {
      ReadsOne("", delim);
    } else if Exploded(s, delim).Ok? {
      ExplodedComplete(s, delim);
    } else if values :| Reads(values, s, delim) {
      CompleteExploded(values, delim);
    }
  }

  lemma {:induction false} ClosesAt(s: string, q: nat, n: nat)
    requires q <= n < |s| && EndsQuote(s, n) && forall i :: q <= i < n ==> !EndsQuote(s, i)
    ensures CloseQuote(s, q) == Some(n + 1)
    decreases n - q
  {
    if q < n {
      ClosesAt(s, q + 1, n);
    }
  }

  predicate NoQuote(s: string) { '"' !in s }

  /** A quote behind one backslash is part of the value, */
  lemma EscapedQuoteStays(a: string, b: string, delim: char)
    requires NoQuote(a) && NoQuote(b) && (a != "" ==> a[|a| - 1] != '\\') && (b != "" ==> b[|b| - 1] != '\\')
    ensures Complete("\"" + a + "\\\"" + b + "\"", delim)
  {
    var s := "\"" + a + "\\\"" + b + "\"";
    var n := |s| - 1;
    assert s[|a| + 1] == '\\' && s[|a| + 2] == '"' && s[n] == '"';
    assert s[n - 1] == if b == "" then '"' else b[|b| - 1];
    assert s[|a|] == if a == "" then '"' else a[|a| - 1];
    assert forall i :: 1 <= i < n && i != |a| + 2 ==> s[i] != '"';
    ClosesAt(s, 1, n);
  }

  /** and one behind two ends it. */
  lemma DoubleBackslashEnds(a: string, delim: char)
    requires NoQuote(a)
    ensures Complete("\"" + a + "\\\\\"", delim)
  {
    var s := "\"" + a + "\\\\\"";
    var n := |s| - 1;
    assert s[n] == '"' && s[n - 1] == '\\' && s[n - 2] == '\\';
    assert forall i :: 1 <= i < n ==> s[i] != '"';
    ClosesAt(s, 1, n);
  }

  // ---- The program ----

  /** `std::string::find(c, from)`. */
  function Find(s: string, c: char, from: nat): (r: Option<nat>)
    ensures r.Some? ==> from <= r.value < |s| && s[r.value] == c
    decreases |s| - from
  {
    if from >= |s| then None else if s[from] == c then Some(from) else Find(s, c, from + 1)
  }

  lemma {:induction false} FindDelimiter(str: string, delim: char, start: nat)
    requires start <= |str|
    ensures var first := FirstDelimiter(str[start..], delim);
            Find(str, delim, start) == if start + first < |str| then Some(start + first) else None
    decreases |str| - start
  {
    if start < |str| && str[start] != delim {
      FindDelimiter(str, delim, start + 1);
      assert str[start..][1..] == str[start + 1..];
    }
  }

  /** Only a quote can end a quoted value. */
  lemma {:induction false} SkipToQuote(str: string, start: nat, q: nat)
    requires start <= q && start <= |str|
    ensures CloseQuote(str[start..], q - start) ==
            match Find(str, '"', q) case None => None case Some(k) => CloseQuote(str[start..], k - start)
    decreases |str| - q
  {
    if q < |str| && str[q] != '"' {
      SkipToQuote(str, start, q + 1);
    }
  }

  /** The loop over the quotes of a value that starts with one. */
  method EndOfQuoted(str: string, start: nat) returns (qstart: Option<nat>)
    requires start < |str| && str[start] == '"'
    ensures qstart.Some? ==> start < qstart.value <= |str|
    ensures CloseQuote(str[start..], 1) == if qstart.Some? then Some(qstart.value - start) else None
  {
    var next := start + 1;
    var endquote := false;
    while !endquote
      invariant start < next <= |str|
      invariant CloseQuote(str[start..], 1) ==
                if endquote then Some(next - start) else CloseQuote(str[start..], next - start)
      decreases |str| - next + (if endquote then 0 else 1)
    {
      SkipToQuote(str, start, next);
      var aquote := Find(str, '"', next);
      if aquote.None? {
        return None;
      }
      var q := aquote.value;
      next := q + 1;
      if str[q - 1] == '\\' {
        if str[q - 2] == '\\' {
          endquote := true;
        }
      } else {
        endquote := true;
      }
    }
    return Some(next);
  }

  /** Where the value that starts at `start` ends: at a delimiter, or at the end of the text (`npos`). */
  method FindEnd(delim: char, str: string, start: nat) returns (r: Result<Option<nat>>)
    requires start < |str|
    ensures match ValueEnd(str[start..], delim)
            case Err(e) => r == Err(e)
            case Ok(end) => r == Ok(if start + end == |str| then None else Some(start + end))
  {
    if str[start] == '"' {
      var qstart := EndOfQuoted(str, start);
      if qstart.None? {
        return Err(NoEndQuote);
      }
      if qstart.value != |str| && str[qstart.value] != delim {
        return Err(NoDelimiterAfterQuote);
      }
      return Ok(if qstart.value == |str| then None else qstart);
    }
    FindDelimiter(str, delim, start);
    return Ok(Find(str, delim, start));
  }

  /** The values so far, in front of those that are left. */
  function After(values: seq<string>, rest: Result<seq<string>>): Result<seq<string>> {
    match rest
    case Err(e) => Err(e)
    case Ok(more) => Ok(values + more)
  }

  lemma AfterOne(values: seq<string>, str: string, delim: char, start: nat, end: nat)
    requires start < |str| && start <= end && end + 1 < |str|
    requires ValueEnd(str[start..], delim) == Ok(end - start)
    ensures After(values, Exploded(str[start..], delim))
            == After(values + [str[start..end]], Exploded(str[end + 1..], delim))
  {
    assert str[start..][..end - start] == str[start..end];
    assert str[start..][end - start + 1..] == str[end + 1..];
    var rest := Exploded(str[end + 1..], delim);
    if rest.Ok? {
      assert values + ([str[start..end]] + rest.value) == values + [str[start..end]] + rest.value;
    }
  }

  /** The last value, and the empty one after a delimiter at the end. */
  lemma AfterLast(values: seq<string>, str: string, delim: char, start: nat, end: nat)
    requires start < |str| && start <= end <= |str| <= end + 1
    requires ValueEnd(str[start..], delim) == Ok(end - start)
    ensures After(values, Exploded(str[start..], delim))
            == Ok(values + [str[start..end]] + (if end < |str| then [""] else []))
  {
    assert str[start..][..end - start] == str[start..end];
    var v := str[start..end];
    if end == |str| {
      assert v == str[start..] && values + [v] + [] == values + [v];
    } else {
      assert values + [v] + [""] == values + [v, ""];
    }
  }

  /** `explode`. Each round starts further on, but for the wrap of `npos + 1` to 0 at the end. */
  method Explode(delim: char, str: string) returns (r: Result<seq<string>>)
    ensures r == Exploded(str, delim)
  {
    if str == "" {
      // str[0] is the terminating NUL and find() gives npos, so start becomes 0, which is the size.
      return Ok(["", ""]);
    }
    var values: seq<string> := [];
    var start: nat := 0;
    assert str[0..] == str;
    StartAfter(Exploded(str, delim));
    while true
      invariant start < |str|
      invariant Exploded(str, delim) == After(values, Exploded(str[start..], delim))
      decreases |str| - start
    {
      var adelim := FindEnd(delim, str, start);
      if adelim.Err? {
        return Err(adelim.error);
      }
      var end := if adelim.value.None? then |str| else adelim.value.value;
      if end + 1 < |str| {
        AfterOne(values, str, delim, start, end);
      } else {
        AfterLast(values, str, delim, start, end);
      }
      values := values + [str[start..end]];
      if end == |str| {
        assert values + [] == values;
        return Ok(values);
      }
      start := end + 1;
      if start == |str| {
        return Ok(values + [""]);
      }
    }
  }

  lemma StartAfter(r: Result<seq<string>>)
    ensures After([], r) == r
  {
    if r.Ok? {
      assert [] + r.value == r.value;
    }
  }

  lemma {:induction false} JoinedSnoc(values: seq<string>, v: string, delim: char)
    requires values != []
    ensures Joined(values + [v], delim) == Joined(values, delim) + ([delim] + v)
  {
    if |values| == 1 {
      assert (values + [v])[1..] == [v];
    } else {
      JoinedSnoc(values[1..], v, delim);
      assert (values + [v])[1..] == values[1..] + [v];
    }
  }

  lemma {:induction false} AllPrintableIff(values: seq<string>, delim: char)
    ensures AllPrintable(values, delim) <==> forall i :: 0 <= i < |values| ==> Printable(values[i], delim)
  {
    if values != [] {
      AllPrintableIff(values[1..], delim);
      assert forall i :: 0 < i < |values| ==> values[i] == values[1..][i - 1];
    }
  }

  /** `implode`; `None` stands for the exception. */
  method Implode(values: seq<string>, delim: char) returns (r: Option<string>)
    ensures r == Imploded(values, delim)
  {
    var result := "";
    AllPrintableIff(values, delim);
    for i := 0 to |values|
      invariant result == Joined(values[..i], delim)
      invariant forall k :: 0 <= k < i ==> Printable(values[k], delim)
    {
      assert values[..i + 1] == values[..i] + [values[i]];
      if i > 0 {
        JoinedSnoc(values[..i], values[i], delim);
        result := result + [delim];
      }
      FindDelimiter(values[i], delim, 0);
      assert values[i][0..] == values[i];
      var d := Find(values[i], delim, 0);
      if d.Some? && values[i][0] != '"' {
        return None;
      }
      result := result + values[i];
    }
    assert values[..|values|] == values;
    return Some(result);
  }
}
