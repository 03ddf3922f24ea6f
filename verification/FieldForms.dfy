/** Header lines as other senders write them (section 5 of RFC 9112). */
module FieldForms {
  import opened Text
  import opened Fields

  /** Optional white space. */
  predicate OptionalSpace(s: string) { forall i :: 0 <= i < |s| ==> s[i] == ' ' || s[i] == '\t' }

  lemma {:induction false} SpaceInFront(space: string, s: string)
    requires OptionalSpace(space)
    ensures TrimLeft(space + s) == TrimLeft(s)
    decreases |space|
  {
    if space == "" {
      assert space + s == s;
    } else {
      assert (space + s)[1..] == space[1..] + s;
      SpaceInFront(space[1..], s);
    }
  }

  lemma {:induction false} SpaceBehind(s: string, space: string)
    requires OptionalSpace(space)
    ensures TrimRight(s + space) == TrimRight(s)
    decreases |space|
  {
    if space == "" {
      assert s + space == s;
    } else {
      var n := |space| - 1;
      assert (s + space)[..|s + space| - 1] == s + space[..n];
      SpaceBehind(s, space[..n]);
    }
  }

  /** The white space around a value makes no difference; there may be none. */
  lemma SpaceAroundValue(key: string, before: string, val: string, after: string)
    requires ':' !in key && Trimmed(val) && OptionalSpace(before) && OptionalSpace(after)
    ensures ParseHeader(key + ":" + before + val + after) == ParseHeader(FieldLine(key, val))
  {
    var line := key + ":" + (if val == "" then "" else before + val);
    var rest := if val == "" then "" else before + val;
    TrimmedLine(key, before, val, after);
    FindCharAt(key, ':', rest);
    assert line == key + [':'] + rest;
    assert line[..|key|] == key && line[|key| + 1..] == rest;
    SpaceInFront(before, val);
    ParseParts(key + ":" + before + val + after, key, val);
    ParsePrinted(key, val);
  }

  lemma TrimmedLine(key: string, before: string, val: string, after: string)
    requires ':' !in key && Trimmed(val) && OptionalSpace(before) && OptionalSpace(after)
    ensures TrimRight(key + ":" + before + val + after) == key + ":" + (if val == "" then "" else before + val)
  {
    SpaceBehind(key + ":" + before + val, after);
    if val == "" {
      assert key + ":" + before + val == key + ":" + before;
      SpaceBehind(key + ":", before);
      TrimRightSame(key + ":");
      assert key + ":" + "" == key + ":";
    } else {
      TrimRightSame(key + ":" + before + val);
      assert key + ":" + before + val == key + ":" + (before + val);
    }
  }

  /** A line without a colon is refused, and so is one without a name. */
  lemma NamelessLineRefused(line: string)
    requires ':' !in line || line[0] == ':'
    ensures ParseHeader(line).None?
  {
    var s := TrimRight(line);
    TrimRightPrefix(line);
    FindCharFirst(s, ':');
    if ':' !in line {
      assert ':' !in s;
    }
  }
}
