/** The numbers of size lines: how the writer prints them, and every form in which they are read. */
module ChunkedSizes {
  import opened Options
  import opened UrlCodec
  import opened Chunked
  import opened ChunkedForms

  /** Lengths are printed with lower-case digits and without zeros in front. */
  lemma {:induction false} PrintedSize(n: nat)
    ensures forall i :: 0 <= i < |ToHex(n)| ==> ToHex(n)[i] in "0123456789abcdef"
    ensures n > 0 ==> ToHex(n)[0] != '0'
    decreases n
  {
    if n >= 16 {
      PrintedSize(n / 16);
      assert ToHex(n)[..|ToHex(n)| - 1] == ToHex(n / 16);
    }
  }

  /** What `isspace` accepts: the blank, and the characters from the tab to the carriage return. */
  predicate Spaces(s: string) { forall i :: 0 <= i < |s| ==> s[i] as int in {9, 10, 11, 12, 13, 32} }

  lemma {:induction false} SpacesSkipped(spaces: string, t: string)
    requires Spaces(spaces) && t != "" && !IsSpace(t[0])
    ensures SkipSpaces(spaces + t) == t
    decreases |spaces|
  {
    if spaces == "" {
      assert spaces + t == t;
    } else {
      assert (spaces + t)[1..] == spaces[1..] + t;
      SpacesSkipped(spaces[1..], t);
    }
  }

  /** A number of the form that `strtoul` reads to the base 16. */
  predicate NumberText(sign: string, prefix: string, digits: string, rest: string) {
    && (sign == "" || sign == "+" || sign == "-") && (prefix == "" || prefix == "0x" || prefix == "0X")
    && digits != "" && HexDigits(digits) && (rest == "" || HexDigit(rest[0]).None?)
    && (prefix == "" && digits == "0" && |rest| > 1 && rest[0] in "xX" ==> HexDigit(rest[1]).None?)
  }

  /** What the number `v` is read as: it saturates, and with a minus sign it is taken from 2^64. */
  function Read(v: nat, negative: bool): nat {
    if v > ULONG_MAX then ULONG_MAX
    else if negative && v != 0 then 0x1_0000_0000_0000_0000 - v
    else v
  }

  /** The size may stand behind white space, a sign and a prefix. */
  lemma AnySizeRead(spaces: string, sign: string, prefix: string, digits: string, rest: string)
    requires Spaces(spaces) && NumberText(sign, prefix, digits, rest)
    ensures StrToUL(spaces + (sign + (prefix + (digits + rest)))) == Some(Read(DigitsValue(digits), sign == "-"))
  {
    var u := prefix + (digits + rest);
    var t := sign + u;
    FirstOfNumber(prefix, digits, rest);
    SpacesSkipped(spaces, t);
    SignSplit(sign, u);
    SignRead(t, u, sign);
    HexPrefixStops(digits, rest);
    PrefixSplit(prefix, digits + rest);
    PrefixRead(u, prefix, digits, rest);
    DigitsRead(spaces + t, t, u, digits + rest, sign == "-", digits, DigitsValue(digits));
  }

  lemma FirstOfNumber(prefix: string, digits: string, rest: string)
    requires NumberText("", prefix, digits, rest)
    ensures var u := prefix + (digits + rest);
            u != "" && HexDigit(u[0]).Some? && !IsSpace(u[0]) && u[0] !in "+-"
  {
    DigitIsPlain(digits[0]);
  }

  lemma SignSplit(sign: string, u: string)
    requires sign == "" || sign == "+" || sign == "-"
    ensures sign != "" ==> (sign + u)[0] == sign[0] && (sign + u)[1..] == u
    ensures sign == "" ==> sign + u == u
  {
  }

  lemma PrefixSplit(prefix: string, w: string)
    requires prefix == "" || prefix == "0x" || prefix == "0X"
    requires w != ""
    ensures PrefixStands(prefix + w, prefix, w)
  {
  }

  predicate PrefixStands(u: string, prefix: string, w: string) {
    if prefix == "" then u == w
    else |u| > 2 && u[0] == '0' && (u[1] == 'x' || u[1] == 'X') && u[2..] == w
  }

  lemma PrefixRead(u: string, prefix: string, digits: string, rest: string)
    requires NumberText("", prefix, digits, rest) && PrefixStands(u, prefix, digits + rest)
    ensures digits + rest
         == if |u| > 2 && u[0] == '0' && (u[1] == 'x' || u[1] == 'X') && HexDigit(u[2]).Some? then u[2..] else u
  {
    if prefix != "" {
      assert u[2] == digits[0];
    } else if |digits| > 1 {
      DigitIsPlain(digits[1]);
    }
  }

  lemma SignRead(t: string, u: string, sign: string)
    requires t != "" && (sign == "" || sign == "+" || sign == "-")
    requires if sign == "" then t == u && u[0] !in "+-" else t[0] == sign[0] && t[1..] == u
    ensures u == if t[0] == '-' || t[0] == '+' then t[1..] else t
    ensures t[0] == '-' <==> sign == "-"
  {
  }

  lemma DigitsRead(s: string, t: string, u: string, w: string, negative: bool, digits: string, v: nat)
    requires SkipSpaces(s) == t && t != "" && (t[0] == '-' <==> negative)
    requires u == if t[0] == '-' || t[0] == '+' then t[1..] else t
    requires w == if |u| > 2 && u[0] == '0' && (u[1] == 'x' || u[1] == 'X') && HexDigit(u[2]).Some? then u[2..] else u
    requires HexPrefix(w) == digits != "" && DigitsValue(digits) == v
    ensures StrToUL(s) == Some(Read(v, negative))
  {
  }
}
