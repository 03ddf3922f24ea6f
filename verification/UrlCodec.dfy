/** Percent-encoding: `encode_query_param`, `decode_url` and their hexadecimal helpers. */
module UrlCodec {
  import opened Options
  import opened Text

  /** One byte of a `std::string`. */
  predicate IsByte(c: char) { c as int < 256 }

  predicate IsBytes(s: string) { forall i :: 0 <= i < |s| ==> IsByte(s[i]) }

  function HexDigit(c: char): (r: Option<nat>)
    ensures r.Some? ==> r.value < 16
  {
    if IsDigit(c) then Some(c as int - '0' as int)
    else if 'A' <= c <= 'F' then Some(c as int - 'A' as int + 10)
    else if 'a' <= c <= 'f' then Some(c as int - 'a' as int + 10)
    else None
  }

  /** 16 to the power `n`, the number of values `n` hexadecimal digits can take. */
  function HexRange(n: nat): (r: nat)
    ensures r >= 1
  {
    if n == 0 then 1 else 16 * HexRange(n - 1)
  }

  /** `from_hex_to_i`: the value of exactly `count` digits starting at `i`, if they are all there. */
  function HexValue(s: string, i: nat, count: nat): (r: Option<nat>)
    requires count > 0
    ensures r.Some? ==> i + count <= |s| && r.value < HexRange(count)
    decreases count
  {
    if i + count > |s| then None
    else if count == 1 then HexDigit(s[i])
    else
      match (HexValue(s, i, count - 1), HexDigit(s[i + count - 1]))
      case (Some(v), Some(d)) => Some(16 * v + d)
      case _ => None
  }

  /** `to_utf8`, one character per emitted byte; surrogates and values past U+10FFFF emit nothing. */
  function Utf8(code: nat): (r: string)
    ensures |r| <= 4 && (code < 0x10000 ==> |r| <= 3)
  {
    if code < 0x80 then [code as char]
    else if code < 0x800 then [(0xC0 + code / 64) as char, (0x80 + code % 64) as char]
    else if 0xD800 <= code < 0xE000 then ""
    else if code < 0x10000 then
      [(0xE0 + code / 4096) as char, (0x80 + code / 64 % 64) as char, (0x80 + code % 64) as char]
    else if code < 0x110000 then
      [(0xF0 + code / 262144) as char, (0x80 + code / 4096 % 64) as char,
       (0x80 + code / 64 % 64) as char, (0x80 + code % 64) as char]
    else ""
  }

  /** The escape that `decode_url` recognises at the head of `s`: how long it is and what it becomes. */
  function EscapeAt(s: string): (r: Option<(nat, string)>)
    ensures r.Some? ==> 3 <= r.value.0 <= |s| && |r.value.1| < r.value.0
  {
    if |s| > 1 && s[0] == '%' then
      if s[1] == 'u' then
        match HexValue(s, 2, 4)
        case Some(v) => assert HexRange(4) == 65536; Some((6, Utf8(v)))
        case None => None
      else
        match HexValue(s, 1, 2)
        case Some(v) => assert HexRange(2) == 256; Some((3, [v as char]))
        case None => None
    else None
  }

  function DecodeUrl(s: string, plusIsSpace: bool): (r: string)
    ensures |r| <= |s|
    decreases |s|
  {
    if s == "" then ""
    else
      match EscapeAt(s)
      case Some(e) => e.1 + DecodeUrl(s[e.0..], plusIsSpace)
      case None =>
        [if plusIsSpace && s[0] == '+' then ' ' else s[0]] + DecodeUrl(s[1..], plusIsSpace)
  }

  /** Some position of `s` starts an escape. */
  predicate HasEscape(s: string) {
    s != "" && (EscapeAt(s).Some? || HasEscape(s[1..]))
  }

  /** A text survives decoding exactly when no position starts an escape (and, in query texts,
      when it has no plus sign). */
  lemma {:induction false} DecodeIdentity(s: string, plusIsSpace: bool)
    ensures DecodeUrl(s, plusIsSpace) == s <==> !HasEscape(s) && (plusIsSpace ==> '+' !in s)
  {
    if s != "" {
      DecodeIdentity(s[1..], plusIsSpace);
      var r := DecodeUrl(s, plusIsSpace);
      if EscapeAt(s).Some? {
        assert |r| < |s|;
      } else {
        assert r[0] == (if plusIsSpace && s[0] == '+' then ' ' else s[0]);
        assert r[1..] == DecodeUrl(s[1..], plusIsSpace);
        assert s == [s[0]] + s[1..];
      }
    }
  }
}
