/** Base 64 (section 4 of RFC 4648): the shifting accumulator of `base64_encode`, the group-of-three form
    of the standard, and a strict decoder that is its inverse. */
module Base64 {
  import opened Options
  import opened Text

  type Byte = x: nat | x < 256

  const TWO_32 := 0x1_0000_0000

  /** Table 1 of the standard. */
  function Digit(v: nat): char
    requires v < 64
  {
    if v < 26 then ('A' as int + v) as char
    else if v < 52 then ('a' as int + v - 26) as char
    else if v < 62 then ('0' as int + v - 52) as char
    else if v == 62 then '+' else '/'
  }

  function DigitValue(c: char): (r: Option<nat>)
    ensures r.Some? <==> exists v: nat :: v < 64 && Digit(v) == c
    ensures r.Some? ==> r.value < 64 && Digit(r.value) == c
  {
    if 'A' <= c <= 'Z' then assert Digit(c as int - 'A' as int) == c; Some(c as int - 'A' as int)
    else if 'a' <= c <= 'z' then assert Digit(c as int - 'a' as int + 26) == c; Some(c as int - 'a' as int + 26)
    else if '0' <= c <= '9' then assert Digit(c as int - '0' as int + 52) == c; Some(c as int - '0' as int + 52)
    else if c == '+' then assert Digit(62) == c; Some(62)
    else if c == '/' then assert Digit(63) == c; Some(63)
    else None
  }

  lemma DigitInverse(v: nat)
    requires v < 64
    ensures DigitValue(Digit(v)) == Some(v) && Digit(v) != '='
  {
  }

  // ---- The standard's form ----

  /** Four digits for three bytes. */
  function Quad(a: Byte, b: Byte, c: Byte): (r: string)
    ensures |r| == 4
  {
    [Digit(a / 4), Digit(a % 4 * 16 + b / 16), Digit(b % 16 * 4 + c / 64), Digit(c % 64)]
  }

  /** Four characters for the last one or two bytes. */
  function Padded(rest: seq<Byte>): (r: string)
    requires |rest| < 3
    ensures |r| == if rest == [] then 0 else 4
  {
    if |rest| == 1 then [Digit(rest[0] / 4), Digit(rest[0] % 4 * 16), '=', '=']
    else if |rest| == 2 then
      [Digit(rest[0] / 4), Digit(rest[0] % 4 * 16 + rest[1] / 16), Digit(rest[1] % 16 * 4), '=']
    else ""
  }

  /** Groups of three bytes, then one or two bytes with padding. */
  function Encode(bytes: seq<Byte>): string {
    if |bytes| < 3 then Padded(bytes)
    else Quad(bytes[0], bytes[1], bytes[2]) + Encode(bytes[3..])
  }

  lemma ThreeLess(n: nat)
    requires n >= 3
    ensures (n + 2) / 3 == (n - 3 + 2) / 3 + 1
  {
  }

  lemma {:induction false} EncodedLength(bytes: seq<Byte>)
    ensures |Encode(bytes)| == 4 * ((|bytes| + 2) / 3)
  {
    if |bytes| >= 3 {
      EncodedLength(bytes[3..]);
      ThreeLess(|bytes|);
    }
  }

  lemma {:induction false} EncodedAligned(bytes: seq<Byte>)
    ensures |Encode(bytes)| % 4 == 0
  {
    if |bytes| >= 3 {
      EncodedAligned(bytes[3..]);
      FourMore(Quad(bytes[0], bytes[1], bytes[2]), Encode(bytes[3..]));
    }
  }

  lemma FourMore(a: string, b: string)
    requires |a| == 4 && |b| % 4 == 0
    ensures |a + b| % 4 == 0
  {
  }

  // ---- The decoder ----

  function DecodeQuad(s: string): Option<seq<Byte>>
    requires |s| == 4
  {
    match (DigitValue(s[0]), DigitValue(s[1]), DigitValue(s[2]), DigitValue(s[3]))
    case (Some(p), Some(q), Some(r), Some(t)) =>
      Some([p * 4 + q / 16, q % 16 * 16 + r / 4, r % 4 * 64 + t])
    case _ => None
  }

  /** The bytes of four characters with padding; the unused bits must be zero. */
  function DecodePadded(s: string): Option<seq<Byte>>
    requires |s| == 4
  {
    match (DigitValue(s[0]), DigitValue(s[1]), DigitValue(s[2]))
    case (Some(p), Some(q), Some(r)) =>
      if s[3] == '=' && r % 4 == 0 then Some([p * 4 + q / 16, q % 16 * 16 + r / 4]) else None
    case (Some(p), Some(q), None) =>
      if s[2..] == "==" && q % 16 == 0 then Some([p * 4 + q / 16]) else None
    case _ => None
  }

  function Decode(s: string): Option<seq<Byte>> {
    if s == "" then Some([])
    else if |s| < 4 then None
    else if |s| == 4 && s[3] == '=' then DecodePadded(s)
    else
      match (DecodeQuad(s[..4]), Decode(s[4..]))
      case (Some(first), Some(rest)) => Some(first + rest)
      case _ => None
  }

  // ---- Inverse, both ways ----

  /** Six-bit and eight-bit groupings of 24 bits determine each other. */
  lemma Regroup(p: nat, q: nat, r: nat, t: nat, a: Byte, b: Byte, c: Byte)
    requires p < 64 && q < 64 && r < 64 && t < 64
    ensures (p == a / 4 && q == a % 4 * 16 + b / 16 && r == b % 16 * 4 + c / 64 && t == c % 64)
            <==> (a == p * 4 + q / 16 && b == q % 16 * 16 + r / 4 && c == r % 4 * 64 + t)
  {
    if p == a / 4 && q == a % 4 * 16 + b / 16 && r == b % 16 * 4 + c / 64 {
      assert q / 16 == a % 4 && q % 16 == b / 16 && r / 4 == b % 16 && r % 4 == c / 64;
    }
    if a == p * 4 + q / 16 && b == q % 16 * 16 + r / 4 && c == r % 4 * 64 + t {
      assert a / 4 == p && a % 4 == q / 16 && b / 16 == q % 16 && b % 16 == r / 4 && c / 64 == r % 4;
    }
  }

  lemma QuadInverse(a: Byte, b: Byte, c: Byte)
    ensures DecodeQuad(Quad(a, b, c)) == Some([a, b, c])
  {
    var p, q, r, t := a / 4, a % 4 * 16 + b / 16, b % 16 * 4 + c / 64, c % 64;
    Regroup(p, q, r, t, a, b, c);
    DigitInverse(p);
    DigitInverse(q);
    DigitInverse(r);
    DigitInverse(t);
  }

  lemma QuadOf(p: nat, q: nat, r: nat, t: nat)
    requires p < 64 && q < 64 && r < 64 && t < 64
    ensures Quad(p * 4 + q / 16, q % 16 * 16 + r / 4, r % 4 * 64 + t) == [Digit(p), Digit(q), Digit(r), Digit(t)]
  {
    Regroup(p, q, r, t, p * 4 + q / 16, q % 16 * 16 + r / 4, r % 4 * 64 + t);
  }

  lemma QuadUnique(s: string)
    requires |s| == 4 && DecodeQuad(s).Some?
    ensures |DecodeQuad(s).value| == 3
    ensures var d := DecodeQuad(s).value; s == Quad(d[0], d[1], d[2])
  {
    var p, q, r, t := DigitValue(s[0]).value, DigitValue(s[1]).value, DigitValue(s[2]).value, DigitValue(s[3]).value;
    QuadOf(p, q, r, t);
    assert s == [Digit(p), Digit(q), Digit(r), Digit(t)];
  }

  lemma PaddedInverse(rest: seq<Byte>)
    requires 0 < |rest| < 3
    ensures DecodePadded(Padded(rest)) == Some(rest)
  {
    var a, b := rest[0], if |rest| == 1 then 0 else rest[1];
    var p, q, r := a / 4, a % 4 * 16 + b / 16, b % 16 * 4;
    Regroup(p, q, r, 0, a, b, 0);
    DigitInverse(p);
    DigitInverse(q);
    DigitInverse(r);
    assert rest == if |rest| == 1 then [a] else [a, b];
    assert Padded(rest) == [Digit(p), Digit(q), if |rest| == 1 then '=' else Digit(r), '='];
    if |rest| == 1 {
      assert Padded(rest)[2..] == "==";
    }
  }

  lemma PaddedUnique(s: string)
    requires |s| == 4 && DecodePadded(s).Some?
    ensures 0 < |DecodePadded(s).value| < 3 && s == Padded(DecodePadded(s).value)
  {
    var p, q := DigitValue(s[0]).value, DigitValue(s[1]).value;
    var r := if DigitValue(s[2]).Some? then DigitValue(s[2]).value else 0;
    Regroup(p, q, r, 0, p * 4 + q / 16, q % 16 * 16 + r / 4, r % 4 * 64);
    if DigitValue(s[2]).Some? {
      assert s == [Digit(p), Digit(q), Digit(r), '='];
    } else {
      assert s[2..][0] == s[2] && s[2..][1] == s[3];
      assert s == [Digit(p), Digit(q), '=', '='];
    }
  }

  lemma DecodeStep(quad: string, rest: string)
    requires |quad| == 4 && quad[3] != '='
    ensures Decode(quad + rest) ==
            if DecodeQuad(quad).Some? && Decode(rest).Some?
            then Some(DecodeQuad(quad).value + Decode(rest).value) else None
  {
    assert (quad + rest)[..4] == quad && (quad + rest)[4..] == rest;
  }

  lemma QuadEnds(a: Byte, b: Byte, c: Byte)
    ensures Quad(a, b, c)[3] != '='
  {
  }

  lemma SplitThree(bytes: seq<Byte>)
    requires |bytes| >= 3
    ensures bytes == [bytes[0], bytes[1], bytes[2]] + bytes[3..]
  {
  }

  /** The decoder inverts the encoding. */
  lemma {:induction false} EncodeThenDecode(bytes: seq<Byte>)
    ensures Decode(Encode(bytes)) == Some(bytes)
  {
    if |bytes| >= 3 {
      EncodeThenDecode(bytes[3..]);
      QuadInverse(bytes[0], bytes[1], bytes[2]);
      QuadEnds(bytes[0], bytes[1], bytes[2]);
      DecodeStep(Quad(bytes[0], bytes[1], bytes[2]), Encode(bytes[3..]));
      SplitThree(bytes);
    } else if bytes != [] {
      PaddedInverse(bytes);
      PaddedEnds(bytes);
    }
  }

  lemma PaddedEnds(rest: seq<Byte>)
    requires 0 < |rest| < 3
    ensures Padded(rest)[3] == '='
  {
  }

  lemma EncodeStep(d: seq<Byte>, rest: seq<Byte>)
    requires |d| == 3
    ensures Encode(d + rest) == Quad(d[0], d[1], d[2]) + Encode(rest)
  {
    assert (d + rest)[3..] == rest;
  }

  lemma {:induction false} DecodeOnlyEncodings(s: string)
    requires Decode(s).Some?
    ensures s == Encode(Decode(s).value)
  {
    if s == "" {
    } else if |s| == 4 && s[3] == '=' {
      PaddedUnique(s);
    } else {
      DecodeOnlyEncodings(s[4..]);
      QuadUnique(s[..4]);
      EncodeStep(DecodeQuad(s[..4]).value, Decode(s[4..]).value);
      assert s == s[..4] + s[4..];
    }
  }

  /** A text decodes to some bytes exactly when it is their encoding: the encoding is one to one, and the
      decoder accepts nothing else. */
  lemma DecodeIff(s: string, bytes: seq<Byte>)
    ensures Decode(s) == Some(bytes) <==> s == Encode(bytes)
  {
    EncodeThenDecode(bytes);
    if Decode(s) == Some(bytes) {
      DecodeOnlyEncodings(s);
    }
  }

  // ---- The program ----

  /** The low ends of the accumulator that the program uses. */
  predicate IsLow(k: int) { k == 0 || k == 2 || k == 4 || k == 6 }

  /** `val >> k`. */
  function Shifted(val: nat, k: int): nat
    requires IsLow(k)
  {
    if k == 0 then val else if k == 2 then val / 4 else if k == 4 then val / 16 else val / 64
  }

  /** `(val << 8) + c` in an accumulator of 32 bits. */
  function Shift8(val: nat, c: Byte): nat { (val * 256 + c) % TWO_32 }

  /** The low 12 bits of the accumulator after `c` followed `b`. */
  predicate Follows(val: nat, b: Byte, c: Byte) {
    val % 4096 == 256 * (b as int % 16) + c as int
  }

  lemma ModMod(m: nat)
    ensures m % TWO_32 % 4096 == m % 4096
  {
    var q, r := m / TWO_32, m % TWO_32;
    assert m == TWO_32 * q + r;
    assert r == 4096 * (r / 4096) + r % 4096;
    assert m == 4096 * (1048576 * q + r / 4096) + r % 4096;
    Mod4096(1048576 * q + r / 4096, r % 4096);
  }

  lemma Mod4096(x: nat, r: nat)
    requires r < 4096
    ensures (4096 * x + r) % 4096 == r
  {
  }

  lemma Low4(val: nat)
    ensures val % 256 % 16 == val % 16
  {
  }

  /** Cutting the accumulator to 32 bits keeps its low 12 bits, the only ones that are read. */
  lemma LowBits(val: nat, b: Byte, c: Byte)
    requires val % 256 == b
    ensures Follows(Shift8(val, c), b, c)
  {
    ModMod(val * 256 + c);
    Low4(val);
    var x, y := val / 16, val % 16;
    Mod4096(x, 256 * y + c as int);
    assert val * 256 + c as int == 4096 * x + (256 * y + c as int);
  }

  lemma LastByte(val: nat, b: Byte, c: Byte)
    requires Follows(val, b, c)
    ensures val % 256 == c
  {
    assert val == 256 * (16 * (val / 4096) + b as int % 16) + c as int;
  }

  /** The digits that one byte pushes: six bits at a time, down from `valb`. */
  function Pushed(val: nat, valb: int): string
    requires IsLow(valb)
  {
    [Digit(Shifted(val, valb) % 64)] + (if valb == 6 then [Digit(val % 64)] else "")
  }

  /** The digits for the first `i` bytes. */
  function Digits(bytes: seq<Byte>, i: nat): string
    requires i <= |bytes|
  {
    if i == 0 then "" else Digits(bytes, i - 1) + NewDigits(bytes, i - 1)
  }

  function NewDigits(bytes: seq<Byte>, i: nat): string
    requires i < |bytes|
  {
    var c := bytes[i];
    if i % 3 == 0 then [Digit(c / 4)]
    else if i % 3 == 1 then [Digit(bytes[i - 1] % 4 * 16 + c / 16)]
    else [Digit(bytes[i - 1] % 16 * 4 + c / 64), Digit(c % 64)]
  }

  lemma FirstOfThree(val: nat, c: Byte)
    requires val % 256 == c
    ensures val / 4 % 64 == c / 4
  {
    assert val / 4 == 64 * (val / 256) + c as int / 4;
    Low64(val / 256, c as int / 4);
  }

  lemma Low64(m: nat, r: nat)
    requires r < 64
    ensures (64 * m + r) % 64 == r
  {
  }

  lemma SecondOfThree(val: nat, b: Byte, c: Byte)
    requires Follows(val, b, c)
    ensures val / 16 % 64 == b % 4 * 16 + c / 16
  {
    var q, v, w := val / 4096, b % 16, c / 16;
    assert val / 16 == 256 * q + 16 * v + w;
    assert v == 4 * (v / 4) + b % 4;
    Low64(4 * q + v / 4, 16 * (b % 4) + w);
  }

  lemma ThirdOfThree(val: nat, b: Byte, c: Byte)
    requires Follows(val, b, c)
    ensures val / 64 % 64 == b % 16 * 4 + c / 64 && val % 64 == c % 64
  {
    var q, v, w := val / 4096, b % 16, c / 64;
    assert val / 64 == 64 * q + 4 * v + w;
    Low64(q, 4 * v + w);
    assert val == 64 * (64 * q + 4 * v + w) + c % 64;
    Low64(64 * q + 4 * v + w, c % 64);
  }

  /** The byte in front of byte `i`; the accumulator starts at 0. */
  function Before(bytes: seq<Byte>, i: nat): Byte
    requires i <= |bytes|
  {
    if i == 0 then 0 else bytes[i - 1]
  }

  /** `valb` in front of byte `i`. */
  function Low(i: nat): int { 2 * (i % 3) - 6 }

  lemma NextLow(i: nat)
    ensures IsLow(Low(i) + 8) && Low(i + 1) == if Low(i) + 8 == 6 then -6 else Low(i) + 2
  {
  }

  /** What one round of the loop pushes. */
  lemma PushesNewDigits(bytes: seq<Byte>, i: nat, val: nat)
    requires i < |bytes| && Follows(val, Before(bytes, i), bytes[i]) && IsLow(Low(i) + 8)
    ensures Pushed(val, Low(i) + 8) == NewDigits(bytes, i)
  {
    var b, c := Before(bytes, i), bytes[i];
    if i % 3 == 0 {
      LastByte(val, b, c);
      FirstOfThree(val, c);
    } else if i % 3 == 1 {
      SecondOfThree(val, b, c);
    } else {
      ThirdOfThree(val, b, c);
    }
  }

  function Pad(k: nat): (r: string)
    ensures |r| == k
  {
    if k == 0 then "" else "=" + Pad(k - 1)
  }

  /** What follows the digits of the bytes. */
  function Ending(bytes: seq<Byte>): string {
    var n := |bytes|;
    if n % 3 == 1 then [Digit(bytes[n - 1] % 4 * 16)] + Pad(2)
    else if n % 3 == 2 then [Digit(bytes[n - 1] % 16 * 4)] + Pad(1)
    else ""
  }

  lemma DigitsThree(bytes: seq<Byte>)
    requires |bytes| >= 3
    ensures Digits(bytes, 3) == Quad(bytes[0], bytes[1], bytes[2])
  {
    DigitsTwo(bytes);
  }

  lemma {:induction false} DigitsAfterThree(bytes: seq<Byte>, i: nat)
    requires 3 + i <= |bytes|
    ensures Digits(bytes, 3 + i) == Quad(bytes[0], bytes[1], bytes[2]) + Digits(bytes[3..], i)
  {
    if i > 0 {
      DigitsAfterThree(bytes, i - 1);
      SameNewDigits(bytes, i - 1);
      Assoc(Quad(bytes[0], bytes[1], bytes[2]), Digits(bytes[3..], i - 1), NewDigits(bytes[3..], i - 1));
    } else {
      DigitsThree(bytes);
    }
  }

  lemma SameNewDigits(bytes: seq<Byte>, i: nat)
    requires 3 + i < |bytes|
    ensures NewDigits(bytes, 3 + i) == NewDigits(bytes[3..], i)
  {
  }

  lemma EndingAfterThree(bytes: seq<Byte>)
    requires |bytes| >= 3
    ensures Ending(bytes) == Ending(bytes[3..])
  {
    assert |bytes| > 3 ==> bytes[|bytes| - 1] == bytes[3..][|bytes| - 4];
  }

  lemma DigitsOne(bytes: seq<Byte>)
    requires bytes != []
    ensures Digits(bytes, 1) == [Digit(bytes[0] / 4)]
  {
    assert Digits(bytes, 1) == Digits(bytes, 0) + NewDigits(bytes, 0);
  }

  lemma DigitsTwo(bytes: seq<Byte>)
    requires |bytes| >= 2
    ensures Digits(bytes, 2) == [Digit(bytes[0] / 4), Digit(bytes[0] % 4 * 16 + bytes[1] / 16)]
  {
    DigitsOne(bytes);
  }

  lemma Pads()
    ensures Pad(1) == "=" && Pad(2) == "=="
  {
    assert Pad(1) == "=" + Pad(0);
    assert Pad(2) == "=" + Pad(1);
  }

  lemma OneByte(bytes: seq<Byte>)
    requires |bytes| == 1
    ensures Digits(bytes, 1) + Ending(bytes) == Padded(bytes)
  {
    DigitsOne(bytes);
    EndingOne(bytes);
  }

  lemma EndingOne(bytes: seq<Byte>)
    requires |bytes| == 1
    ensures Ending(bytes) == [Digit(bytes[0] % 4 * 16), '=', '=']
  {
    Pads();
  }

  lemma EndingTwo(bytes: seq<Byte>)
    requires |bytes| == 2
    ensures Ending(bytes) == [Digit(bytes[1] % 16 * 4), '=']
  {
    Pads();
  }

  lemma TwoBytes(bytes: seq<Byte>)
    requires |bytes| == 2
    ensures Digits(bytes, 2) + Ending(bytes) == Padded(bytes)
  {
    DigitsTwo(bytes);
    EndingTwo(bytes);
  }

  lemma ThreeMore(bytes: seq<Byte>, more: seq<Byte>)
    requires |bytes| >= 3 && more == bytes[3..]
    requires Digits(more, |more|) + Ending(more) == Encode(more)
    ensures Digits(bytes, |bytes|) + Ending(bytes) == Encode(bytes)
  {
    var quad := Quad(bytes[0], bytes[1], bytes[2]);
    DigitsOfAll(bytes, |bytes|, |more|);
    EndingAfterThree(bytes);
    FirstQuad(bytes);
    Glue(quad, Digits(more, |more|), Ending(more), Encode(more));
  }

  lemma DigitsOfAll(bytes: seq<Byte>, n: nat, i: nat)
    requires n == 3 + i == |bytes|
    ensures Digits(bytes, n) == Quad(bytes[0], bytes[1], bytes[2]) + Digits(bytes[3..], i)
  {
    DigitsAfterThree(bytes, i);
  }

  lemma Glue(quad: string, digits: string, ending: string, more: string)
    requires digits + ending == more
    ensures quad + digits + ending == quad + more
  {
    Assoc(quad, digits, ending);
  }

  lemma FirstQuad(bytes: seq<Byte>)
    requires |bytes| >= 3
    ensures Encode(bytes) == Quad(bytes[0], bytes[1], bytes[2]) + Encode(bytes[3..])
  {
  }

  /** The digit stream with its ending is the group-of-three form. */
  lemma {:induction false} DigitsAreGroups(bytes: seq<Byte>)
    ensures Digits(bytes, |bytes|) + Ending(bytes) == Encode(bytes)
  {
    if |bytes| >= 3 {
      DigitsAreGroups(bytes[3..]);
      ThreeMore(bytes, bytes[3..]);
    } else if |bytes| == 2 {
      TwoBytes(bytes);
    } else if |bytes| == 1 {
      OneByte(bytes);
    }
  }

  lemma LeftOver(val: nat, last: Byte)
    requires val % 256 == last
    ensures Shift8(val, 0) / 16 % 64 == last % 4 * 16 && Shift8(val, 0) / 64 % 64 == last % 16 * 4
  {
    LowBits(val, last, 0);
    var v := Shift8(val, 0);
    SecondOfThree(v, last, 0);
    ThirdOfThree(v, last, 0);
  }

  /** `base64_encode`, with a 32-bit accumulator. */
  method Base64Encode(input: seq<Byte>) returns (out: string)
    ensures out == Encode(input)
  {
    out := "";
    var val, valb := 0, -6;
    for i := 0 to |input|
      invariant valb == Low(i) && out == Digits(input, i) && val % 256 == Before(input, i)
    {
      LowBits(val, Before(input, i), input[i]);
      val := Shift8(val, input[i]);
      NextLow(i);
      PushesNewDigits(input, i, val);
      LastByte(val, Before(input, i), input[i]);
      out, valb := Push(out, val, valb + 8);
    }
    DigitsAreGroups(input);
    EncodedAligned(input);
    out := Finish(out, val, valb, input);
  }

  /** The inner loop: every six bits above the low end of the accumulator. */
  method Push(before: string, val: nat, start: int) returns (out: string, valb: int)
    requires IsLow(start)
    ensures out == before + Pushed(val, start)
    ensures valb == (if start == 6 then -6 else start - 6)
  {
    out, valb := before, start;
    while valb >= 0
      invariant || (valb == start && out == before)
                || (valb == start - 6 && out == before + [Digit(Shifted(val, start) % 64)])
                || (start == 6 && valb == -6 && out == before + Pushed(val, start))
      decreases valb
    {
      out := out + [Digit(Shifted(val, valb) % 64)];
      valb := valb - 6;
    }
  }

  /** The bits that are left over, and the padding. */
  method Finish(digits: string, val: nat, valb: int, ghost input: seq<Byte>) returns (out: string)
    requires valb == Low(|input|) && |digits + Ending(input)| % 4 == 0
    requires val % 256 == Before(input, |input|)
    ensures out == digits + Ending(input)
  {
    out := digits;
    ghost var goal, k := digits + Ending(input), 0;
    if valb > -6 {
      LeftOver(val, input[|input| - 1]);
      out := out + [Digit(Shifted(Shift8(val, 0), valb + 8) % 64)];
      k := if valb == -4 then 2 else 1;
      Assoc(digits, out[|digits|..], Pad(k));
    }
    while |out| % 4 != 0
      invariant 0 <= k < 4 && goal == out + Pad(k)
      decreases k
    {
      Assoc(out, "=", Pad(k - 1));
      out := out + "=";
      k := k - 1;
    }
  }
}
