/** A reader of character data (sections 2.4 and 4.6 of XML 1.0), and what it makes of text that has been escaped. */
module XmlReader {
  import opened Options
  import opened Text
  import opened XmlEscape

  /** The predefined entities. */
  function Predefined(name: string): Option<char> {
    if name == "lt" then Some('<')
    else if name == "gt" then Some('>')
    else if name == "amp" then Some('&')
    else if name == "apos" then Some('\'')
    else if name == "quot" then Some('"')
    else None
  }

  function Then(c: char, rest: Option<string>): Option<string> {
    match rest
    case None => None
    case Some(s) => Some([c] + s)
  }

  /** The characters that the text stands for; None if there is markup in it, or an unknown entity. */
  function ReadText(t: string): Option<string>
    decreases |t|
  {
    if t == "" then Some("")
    else if t[0] == '<' then None
    else if t[0] != '&' then Then(t[0], ReadText(t[1..]))
    else
      match FindChar(t[1..], ';')
      case None => None
      case Some(k) =>
        match Predefined(t[1..][..k])
        case None => None
        case Some(c) => Then(c, ReadText(t[k + 2..]))
  }

  /** A reference to an entity. */
  function Reference(name: string): string { "&" + name + ";" }

  lemma ReferenceRead(name: string, rest: string)
    requires ';' !in name && Predefined(name).Some?
    ensures ReadText(Reference(name) + rest) == Then(Predefined(name).value, ReadText(rest))
  {
    var t := Reference(name) + rest;
    assert t[1..] == name + [';'] + rest;
    FindCharAt(name, ';', rest);
    assert t[1..][..|name|] == name && t[|name| + 2..] == rest;
  }

  /** Each entity is the reference that XML has for its character. */
  lemma EntityIsReference(c: char, rest: string)
    requires c in SPECIAL
    ensures ReadText(Entity(c) + rest) == Then(c, ReadText(rest))
  {
    var name := NameOf(c);
    assert Predefined(name) == Some(c) && ';' !in name;
    assert Entity(c) == Reference(name);
    ReferenceRead(name, rest);
  }

  function NameOf(c: char): string {
    if c == '<' then "lt"
    else if c == '>' then "gt"
    else if c == '&' then "amp"
    else if c == '\'' then "apos"
    else "quot"
  }

  lemma CharacterRead(c: char, rest: string)
    requires c != '&' && c != '<'
    ensures ReadText([c] + rest) == Then(c, ReadText(rest))
  {
    assert ([c] + rest)[1..] == rest;
  }

  /** A reader gets the text back from its escaped form, for every text, as long as the ampersand and the
      less-than sign are among the characters escaped. */
  lemma {:induction false} EscapedIsRead(s: string, k: set<char>)
    requires '&' in k && '<' in k
    ensures ReadText(Escaped(s, k)) == Some(s)
  {
    if s != "" {
      var c, rest := s[0], s[1..];
      EscapedIsRead(rest, k);
      assert s == [c] + rest;
      if c in k && c in SPECIAL {
        EntityIsReference(c, Escaped(rest, k));
      } else {
        CharacterRead(c, Escaped(rest, k));
      }
    }
  }

  /** None of the other characters escaped is left. */
  lemma {:induction false} NoneLeft(s: string, k: set<char>, c: char)
    requires c in k && c in SPECIAL && c != '&'
    ensures c !in Escaped(s, k)
  {
    if s != "" {
      NoneLeft(s[1..], k, c);
      if s[0] in SPECIAL {
        EntityShape(s[0]);
      }
    }
  }
}
