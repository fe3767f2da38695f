/** Bytes, error kinds, and the ASCII number and hex codecs every wire field is built on. */
module Bytes {

  type byte = x: int | 0 <= x < 256
  type bytes = seq<byte>

  /** A two-byte field: message header, command code, error code, TR-31 usage. */
  type Pair = s: bytes | |s| == 2 witness [0, 0]

  datatype Option<+T> = None | Some(value: T)

  /** The error kinds of src/error.rs, without their message text. */
  datatype ProxyError =
    | KeyNotFound
    | MalformedPayload
    | ApcError
    | UnsupportedPinFormat
    | UnsupportedMacMode
    | Unsupported
    | VerificationFailed

  datatype Result<+T> = Ok(value: T) | Err(error: ProxyError) {
    predicate IsFailure() {
      Err?
    }

    function PropagateFailure<U>(): Result<U>
      requires Err?
    {
      Err(error)
    }

    function Extract(): T
      requires Ok?
    {
      value
    }
  }

  function CharByte(c: char): byte {
    if c as int < 256 then c as int else 0
  }

  /** Bytes of an ASCII literal. */
  function Ascii(s: string): (r: bytes)
    ensures |r| == |s|
  {
    seq(|s|, i requires 0 <= i < |s| => CharByte(s[i]))
  }

  /** A two-character field. */
  function Code(first: char, second: char): Pair {
    [CharByte(first), CharByte(second)]
  }

  lemma AsciiRead(s: string, i: nat)
    requires i < |s| && s[i] <= '~'
    ensures Ascii(s)[i] == s[i] as int
  {
    assert s[i] as int <= '~' as int;
  }

  /** The two-character payShield error code of an error kind. */
  function ErrorCode(e: ProxyError): Pair {
    match e
    case KeyNotFound => [0x31, 0x30]           // "10"
    case MalformedPayload => [0x31, 0x35]      // "15"
    case UnsupportedMacMode => [0x31, 0x35]    // "15"
    case ApcError => [0x34, 0x31]              // "41"
    case UnsupportedPinFormat => [0x32, 0x33]  // "23"
    case Unsupported => [0x36, 0x38]           // "68"
    case VerificationFailed => [0x30, 0x31]    // "01"
  }

  /** The codes as the payShield manual lists them; no two meanings but bad data share one. */
  lemma ErrorCodes()
    ensures SUCCESS == Code('0', '0')
    ensures ErrorCode(VerificationFailed) == Code('0', '1')
    ensures ErrorCode(KeyNotFound) == Code('1', '0')
    ensures ErrorCode(MalformedPayload) == ErrorCode(UnsupportedMacMode) == Code('1', '5')
    ensures ErrorCode(UnsupportedPinFormat) == Code('2', '3')
    ensures ErrorCode(ApcError) == Code('4', '1')
    ensures ErrorCode(Unsupported) == Code('6', '8')
  {
  }

  const SUCCESS: Pair := [0x30, 0x30]

  function Flatten(chunks: seq<bytes>): bytes {
    if chunks == [] then [] else chunks[0] + Flatten(chunks[1..])
  }

  lemma FlattenAppend(a: seq<bytes>, b: seq<bytes>)
    ensures Flatten(a + b) == Flatten(a) + Flatten(b)
  {
    if a == [] {
      assert a + b == b;
    } else {
      assert (a + b)[1..] == a[1..] + b;
      FlattenAppend(a[1..], b);
    }
  }

  lemma FlattenSnoc(a: seq<bytes>, x: bytes)
    ensures Flatten(a + [x]) == Flatten(a) + x
  {
    FlattenAppend(a, [x]);
    assert Flatten([x]) == x + Flatten([]) == x;
  }

  lemma SliceOfSlice(s: bytes, from: nat, to: nat, i: nat, j: nat)
    requires from <= to <= |s| && i <= j <= to - from
    ensures s[from..to][i..j] == s[from + i..from + j]
  {
    var inner, outer := s[from..to][i..j], s[from + i..from + j];
    assert |inner| == |outer|;
    forall k | 0 <= k < |inner| ensures inner[k] == outer[k] {
      assert inner[k] == s[from..to][i + k] == s[from + i + k];
      assert outer[k] == s[from + i + k];
    }
  }

  // ---------------------------------------------------------------- numbers

  type Radix = r: int | r == 10 || r == 16 witness 10

  /** Value of one digit, either letter case, as Rust's `char::to_digit`. */
  function DigitValue(b: byte, radix: Radix): (r: Option<nat>)
    ensures r.Some? ==> r.value < radix
  {
    if 0x30 <= b <= 0x39 then Some(b - 0x30)
    else if radix == 16 && 0x41 <= b <= 0x46 then Some(b - 0x37)
    else if radix == 16 && 0x61 <= b <= 0x66 then Some(b - 0x57)
    else None
  }

  function DigitsValue(s: bytes, radix: Radix): Option<nat> {
    if s == [] then Some(0)
    else
      match (DigitsValue(s[..|s| - 1], radix), DigitValue(s[|s| - 1], radix))
      case (Some(hi), Some(lo)) => Some(hi * radix + lo)
      case _ => None
  }

  /** `usize::from_str_radix`: one optional leading '+', then at least one digit.
      Every field this is applied to is at most four characters, so it cannot overflow. */
  function ParseUsize(s: bytes, radix: Radix): Option<nat> {
    var digits := if s != [] && s[0] == 0x2B then s[1..] else s;
    if digits == [] then None else DigitsValue(digits, radix)
  }

  /** The upper-case digit of a value. */
  function Digit(v: nat): (b: byte)
    requires v < 16
    ensures b != 0x2B
    ensures DigitValue(b, 16) == Some(v)
    ensures v < 10 ==> DigitValue(b, 10) == Some(v)
  {
    if v < 10 then 0x30 + v else 0x37 + v
  }

  /** `n` in exactly `width` digits (leading digits lost when `n` does not fit). */
  function FixedDigits(n: nat, width: nat, radix: Radix): (s: bytes)
    ensures |s| == width
    ensures width > 0 ==> s[0] != 0x2B
  {
    if width == 0 then [] else FixedDigits(n / radix, width - 1, radix) + [Digit(n % radix)]
  }

  function Power(radix: Radix, width: nat): (p: nat)
    ensures p > 0
  {
    if width == 0 then 1 else radix * Power(radix, width - 1)
  }

  lemma QuotientBound(n: nat, radix: Radix, bound: nat)
    requires n < radix * bound
    ensures n / radix < bound && n / radix * radix + n % radix == n
  {
    if radix == 10 {
      assert n < 10 * bound;
    } else {
      assert n < 16 * bound;
    }
  }

  lemma SplitLast(n: nat, width: nat, radix: Radix) returns (hi: nat, lo: nat)
    requires 0 < width && n < Power(radix, width)
    ensures hi < Power(radix, width - 1) && lo < radix && hi * radix + lo == n
    ensures FixedDigits(n, width, radix) == FixedDigits(hi, width - 1, radix) + [Digit(lo)]
  {
    QuotientBound(n, radix, Power(radix, width - 1));
    hi, lo := n / radix, n % radix;
  }

  lemma NoDigits(n: nat, radix: Radix)
    requires n < Power(radix, 0)
    ensures DigitsValue(FixedDigits(n, 0, radix), radix) == Some(n)
  {
  }

  lemma LastDigit(s: bytes, hi: nat, lo: nat, radix: Radix)
    requires DigitsValue(s, radix) == Some(hi) && lo < radix
    ensures DigitsValue(s + [Digit(lo)], radix) == Some(hi * radix + lo)
  {
    var t := s + [Digit(lo)];
    assert t[..|t| - 1] == s && t[|t| - 1] == Digit(lo);
    hide Digit, DigitValue;
  }

  lemma {:induction false} FixedDigitsValue(n: nat, width: nat, radix: Radix)
    requires n < Power(radix, width)
    ensures DigitsValue(FixedDigits(n, width, radix), radix) == Some(n)
  {
    hide *;
    if width == 0 {
      NoDigits(n, radix);
    } else {
      var hi, lo := SplitLast(n, width, radix);
      FixedDigitsValue(hi, width - 1, radix);
      LastDigit(FixedDigits(hi, width - 1, radix), hi, lo, radix);
    }
  }

  /** A length printed in a fixed-width field is read back, whatever the width and radix. */
  lemma ParseFixedDigits(n: nat, width: nat, radix: Radix)
    requires width > 0 && n < Power(radix, width)
    ensures ParseUsize(FixedDigits(n, width, radix), radix) == Some(n)
  {
    FixedDigitsValue(n, width, radix);
  }

  lemma DigitSpelled(b: byte, radix: Radix, n: nat)
    requires n < radix
    ensures DigitValue(b, radix) == Some(n) <==> UpperByte(b) == Digit(n)
  {
  }

  /** A digit string has a value exactly when it is, letter case aside, that value printed in as many
      digits as it has. */
  lemma {:induction false} DigitsExactly(s: bytes, radix: Radix, n: nat)
    ensures DigitsValue(s, radix) == Some(n) <==> n < Power(radix, |s|) && Upper(s) == FixedDigits(n, |s|, radix)
  {
    if s == [] {
      assert Upper(s) == [];
    } else {
      var front, last := s[..|s| - 1], s[|s| - 1];
      var hi, lo := n / radix, n % radix;
      QuotientOf(n, radix);
      DigitsExactly(front, radix, hi);
      DigitSpelled(last, radix, lo);
      UpperSnoc(front, last);
      assert s == front + [last];
      WidthStep(n, radix, |s|);
      FixedSnoc(n, radix, |s|, Upper(front), UpperByte(last));
      ValueSnoc(s, radix, n);
      hide *;
    }
  }

  lemma QuotientOf(n: nat, radix: Radix)
    ensures n / radix * radix + n % radix == n && n % radix < radix
  {
  }

  lemma QuotientUnique(hi: nat, lo: nat, radix: Radix)
    requires lo < radix
    ensures (hi * radix + lo) / radix == hi && (hi * radix + lo) % radix == lo
  {
    if radix == 10 {
      assert (hi * 10 + lo) / 10 == hi;
    } else {
      assert (hi * 16 + lo) / 16 == hi;
    }
  }

  lemma WidthStep(n: nat, radix: Radix, width: nat)
    requires width > 0
    ensures n < Power(radix, width) <==> n / radix < Power(radix, width - 1)
  {
    var p := Power(radix, width - 1);
    if radix == 10 {
      assert n < 10 * p <==> n / 10 < p;
    } else {
      assert n < 16 * p <==> n / 16 < p;
    }
  }

  lemma FixedSnoc(n: nat, radix: Radix, width: nat, front: bytes, last: byte)
    requires width > 0 && |front| == width - 1
    ensures front + [last] == FixedDigits(n, width, radix)
       <==> front == FixedDigits(n / radix, width - 1, radix) && last == Digit(n % radix)
  {
    var f := FixedDigits(n / radix, width - 1, radix);
    assert FixedDigits(n, width, radix) == f + [Digit(n % radix)];
    hide FixedDigits, Digit;
    if front + [last] == f + [Digit(n % radix)] {
      assert (front + [last])[..width - 1] == front && (f + [Digit(n % radix)])[..width - 1] == f;
      assert (front + [last])[width - 1] == last;
    }
  }

  lemma ValueSnoc(s: bytes, radix: Radix, n: nat)
    requires s != []
    ensures DigitsValue(s, radix) == Some(n)
       <==> DigitsValue(s[..|s| - 1], radix) == Some(n / radix) && DigitValue(s[|s| - 1], radix) == Some(n % radix)
  {
    var hi, lo := DigitsValue(s[..|s| - 1], radix), DigitValue(s[|s| - 1], radix);
    ValueStep(s, radix);
    QuotientOf(n, radix);
    hide *;
    if hi.Some? && lo.Some? {
      QuotientUnique(hi.value, lo.value, radix);
    }
  }

  lemma ValueStep(s: bytes, radix: Radix)
    requires s != []
    ensures var hi, lo := DigitsValue(s[..|s| - 1], radix), DigitValue(s[|s| - 1], radix);
            && (lo.Some? ==> lo.value < radix)
            && DigitsValue(s, radix) == if hi.Some? && lo.Some? then Some(hi.value * radix + lo.value) else None
  {
  }

  lemma UpperSnoc(front: bytes, last: byte)
    ensures Upper(front + [last]) == Upper(front) + [UpperByte(last)]
  {
  }

  /** A number field is read exactly as `from_str_radix` does: one '+' may come first, then there must
      be a digit, and the digits, letter case aside, are those of the number. */
  lemma ParseExactly(s: bytes, radix: Radix, n: nat)
    ensures var digits := if s != [] && s[0] == '+' as int then s[1..] else s;
            ParseUsize(s, radix) == Some(n)
            <==> digits != [] && n < Power(radix, |digits|) && Upper(digits) == FixedDigits(n, |digits|, radix)
  {
    DigitsExactly(if s != [] && s[0] == 0x2B then s[1..] else s, radix, n);
  }

  lemma Widths()
    ensures Power(10, 2) == 100 && Power(10, 4) == 10000
    ensures Power(16, 2) == 256 && Power(16, 3) == 4096 && Power(16, 4) == 65536
  {
    assert Power(10, 1) == 10 && Power(16, 1) == 16;
    assert Power(10, 2) == 100 && Power(16, 2) == 256;
    assert Power(10, 3) == 1000 && Power(16, 3) == 4096;
  }

  /** All the digits of `n`, no leading zeros. */
  function Digits(n: nat, radix: Radix): (s: bytes)
    ensures |s| > 0
  {
    if n < radix then [Digit(n)] else Digits(n / radix, radix) + [Digit(n % radix)]
  }

  lemma OneDigit(n: nat, radix: Radix)
    requires n < radix
    ensures DigitsValue([], radix) == Some(0) && Digits(n, radix) == [] + [Digit(n)] && 0 * radix + n == n
  {
  }

  lemma DigitsStep(n: nat, radix: Radix)
    requires n >= radix
    ensures Digits(n, radix) == Digits(n / radix, radix) + [Digit(n % radix)]
  {
    hide Digit;
  }

  lemma QuotientLess(n: nat, radix: Radix)
    requires n >= radix
    ensures n / radix < n
  {
  }

  lemma BelowStep(hi: nat, lo: nat, radix: Radix, power: nat)
    requires hi < power && lo < radix
    ensures hi * radix + lo < radix * power
  {
    if radix == 10 {
      assert hi * 10 + lo < 10 * power;
    } else {
      assert hi * 16 + lo < 16 * power;
    }
  }

  lemma {:induction false} DigitsRead(n: nat, radix: Radix)
    ensures DigitsValue(Digits(n, radix), radix) == Some(n)
  {
    hide *;
    if n < radix {
      OneDigit(n, radix);
      LastDigit([], 0, n, radix);
    } else {
      QuotientOf(n, radix);
      DigitsStep(n, radix);
      QuotientLess(n, radix);
      DigitsRead(n / radix, radix);
      LastDigit(Digits(n / radix, radix), n / radix, n % radix, radix);
    }
  }

  /** `format!("{n:04X}")`: four digits, more only when four are not enough. */
  function Hex04(n: nat): (s: bytes)
    ensures |s| >= 4
    ensures n < 0x10000 ==> |s| == 4 && ParseUsize(s, 16) == Some(n)
  {
    if n < 0x10000 then
      Widths();
      ParseFixedDigits(n, 4, 16);
      FixedDigits(n, 4, 16)
    else
      DigitsLength(n);
      Digits(n, 16)
  }

  lemma DigitsLength(n: nat)
    requires n >= 0x10000
    ensures |Digits(n, 16)| >= 5
  {
    assert |Digits(n / 16 / 16 / 16 / 16, 16)| >= 1;
    assert |Digits(n / 16 / 16 / 16, 16)| >= 2;
    assert |Digits(n / 16 / 16, 16)| >= 3;
    assert |Digits(n / 16, 16)| >= 4;
  }

  // --------------------------------------------------------------- scanning

  /** The bytes before the first `stop`, all of them when there is none. */
  function UpTo(s: bytes, stop: byte): (r: bytes)
    ensures r <= s && stop !in r
    ensures stop in s ==> |r| < |s| && s[|r|] == stop
    ensures stop !in s ==> r == s
  {
    if s == [] || s[0] == stop then [] else [s[0]] + UpTo(s[1..], stop)
  }

  lemma {:induction false} UpToPrinted(text: bytes, stop: byte, tail: bytes)
    requires stop !in text
    ensures UpTo(text + ([stop] + tail), stop) == text
  {
    var p := text + ([stop] + tail);
    if text != [] {
      assert p[1..] == text[1..] + ([stop] + tail);
      UpToPrinted(text[1..], stop, tail);
    }
  }

  // -------------------------------------------------------------------- hex

  /** `hex::encode_upper`. */
  function Hex(s: bytes): (h: bytes)
    ensures |h| == 2 * |s|
  {
    if s == [] then [] else [Digit(s[0] / 16), Digit(s[0] % 16)] + Hex(s[1..])
  }

  function Unhex(h: bytes): Option<bytes> {
    if h == [] then Some([])
    else if |h| == 1 then None
    else
      match (DigitValue(h[0], 16), DigitValue(h[1], 16), Unhex(h[2..]))
      case (Some(a), Some(b), Some(t)) => Some([a * 16 + b] + t)
      case _ => None
  }

  lemma {:induction false} UnhexHex(s: bytes)
    ensures Unhex(Hex(s)) == Some(s)
  {
    if s != [] {
      UnhexHex(s[1..]);
      assert Hex(s)[2..] == Hex(s[1..]);
      assert [s[0]] + s[1..] == s;
    }
  }

  /** The hex form loses nothing: two byte strings with the same hex are equal. */
  lemma HexInjective(a: bytes, b: bytes)
    requires Hex(a) == Hex(b)
    ensures a == b
  {
    UnhexHex(a);
    UnhexHex(b);
  }

  // ------------------------------------------------------------------- text

  function UpperByte(b: byte): byte {
    if 0x61 <= b <= 0x7A then b - 32 else b
  }

  /** `to_ascii_uppercase`. */
  function Upper(s: bytes): (r: bytes)
    ensures |r| == |s|
  {
    seq(|s|, i requires 0 <= i < |s| => UpperByte(s[i]))
  }

  lemma UpperIdempotent(s: bytes)
    ensures Upper(Upper(s)) == Upper(s)
  {
    assert forall i | 0 <= i < |s| :: UpperByte(UpperByte(s[i])) == UpperByte(s[i]);
  }

  /** `eq_ignore_ascii_case`. */
  predicate SameIgnoringCase(a: bytes, b: bytes) {
    Upper(a) == Upper(b)
  }

  predicate IsSpace(b: byte) {
    b == 0x20 || 0x09 <= b <= 0x0D
  }

  function TrimLeft(s: bytes): bytes {
    if s != [] && IsSpace(s[0]) then TrimLeft(s[1..]) else s
  }

  function TrimRight(s: bytes): bytes {
    if s != [] && IsSpace(s[|s| - 1]) then TrimRight(s[..|s| - 1]) else s
  }

  /** Spaces come off at both ends, and only there. */
  lemma TrimMeans(before: bytes, text: bytes, after: bytes)
    requires forall b <- before + after :: b in {0x09, 0x0A, 0x0B, 0x0C, 0x0D, 0x20}
    requires text != [] ==> text[0] !in {0x09, 0x0A, 0x0B, 0x0C, 0x0D, 0x20}
    requires text != [] ==> text[|text| - 1] !in {0x09, 0x0A, 0x0B, 0x0C, 0x0D, 0x20}
    ensures TrimRight(TrimLeft(before + (text + after))) == text
  {
    assert forall b <- before :: b in before + after;
    assert forall b <- after :: b in before + after;
    if text == [] {
      assert text + after == after;
      assert forall b <- before + after :: IsSpace(b);
      LeftAll(before + after);
      assert before + (text + after) == before + after;
    } else {
      LeftTrimmed(before, text + after);
      RightTrimmed(text, after);
    }
  }

  lemma {:induction false} LeftAll(s: bytes)
    requires forall b <- s :: IsSpace(b)
    ensures TrimLeft(s) == []
  {
    if s != [] {
      LeftAll(s[1..]);
    }
  }

  lemma {:induction false} LeftTrimmed(before: bytes, rest: bytes)
    requires (forall b <- before :: IsSpace(b)) && rest != [] && !IsSpace(rest[0])
    ensures TrimLeft(before + rest) == rest
  {
    if before == [] {
      assert before + rest == rest;
    } else {
      assert (before + rest)[1..] == before[1..] + rest;
      LeftTrimmed(before[1..], rest);
    }
  }

  lemma {:induction false} RightTrimmed(text: bytes, after: bytes)
    requires (forall b <- after :: IsSpace(b)) && text != [] && !IsSpace(text[|text| - 1])
    ensures TrimRight(text + after) == text
  {
    if after == [] {
      assert text + after == text;
    } else {
      assert (text + after)[..|text + after| - 1] == text + after[..|after| - 1];
      RightTrimmed(text, after[..|after| - 1]);
    }
  }

  predicate Continuation(b: byte) {
    0x80 <= b <= 0xBF
  }

  /** What `str::from_utf8` accepts: shortest-form UTF-8 without surrogates. */
  predicate ValidUtf8(s: bytes) {
    if s == [] then true
    else if s[0] < 0x80 then ValidUtf8(s[1..])
    else if 0xC2 <= s[0] <= 0xDF then
      |s| >= 2 && Continuation(s[1]) && ValidUtf8(s[2..])
    else if 0xE0 <= s[0] <= 0xEF then
      && |s| >= 3 && Continuation(s[1]) && Continuation(s[2])
      && (s[0] == 0xE0 ==> s[1] >= 0xA0) && (s[0] == 0xED ==> s[1] <= 0x9F)
      && ValidUtf8(s[3..])
    else if 0xF0 <= s[0] <= 0xF4 then
      && |s| >= 4 && Continuation(s[1]) && Continuation(s[2]) && Continuation(s[3])
      && (s[0] == 0xF0 ==> s[1] >= 0x90) && (s[0] == 0xF4 ==> s[1] <= 0x8F)
      && ValidUtf8(s[4..])
    else false
  }

  predicate IsScalar(c: nat) {
    c < 0xD800 || 0xE000 <= c < 0x110000
  }

  /** One Unicode scalar value in UTF-8 (section 3 of RFC 3629). */
  function Encoded(c: nat): (s: bytes)
    requires IsScalar(c)
    ensures 1 <= |s| <= 4
  {
    if c < 0x80 then [c]
    else if c < 0x800 then [0xC0 + c / 64, 0x80 + c % 64]
    else if c < 0x10000 then [0xE0 + c / 4096, 0x80 + c / 64 % 64, 0x80 + c % 64]
    else [0xF0 + c / 262144, 0x80 + c / 4096 % 64, 0x80 + c / 64 % 64, 0x80 + c % 64]
  }

  predicate AllScalars(cs: seq<nat>) {
    forall i | 0 <= i < |cs| :: IsScalar(cs[i])
  }

  function Utf8(cs: seq<nat>): bytes
    requires AllScalars(cs)
  {
    if cs == [] then [] else Encoded(cs[0]) + Utf8(cs[1..])
  }

  /** The bytes of one character, as `ValidUtf8` looks for them. */
  predicate Character(s: bytes) {
    || (|s| == 1 && s[0] < 0x80)
    || (|s| == 2 && 0xC2 <= s[0] <= 0xDF && Continuation(s[1]))
    || (|s| == 3 && 0xE0 <= s[0] <= 0xEF && Continuation(s[1]) && Continuation(s[2])
        && (s[0] == 0xE0 ==> s[1] >= 0xA0) && (s[0] == 0xED ==> s[1] <= 0x9F))
    || (|s| == 4 && 0xF0 <= s[0] <= 0xF4 && Continuation(s[1]) && Continuation(s[2]) && Continuation(s[3])
        && (s[0] == 0xF0 ==> s[1] >= 0x90) && (s[0] == 0xF4 ==> s[1] <= 0x8F))
  }

  lemma EncodedCharacter(c: nat)
    requires IsScalar(c)
    ensures Character(Encoded(c))
  {
  }

  lemma CharacterThen(code: bytes, rest: bytes)
    requires Character(code)
    ensures ValidUtf8(code + rest) <==> ValidUtf8(rest)
  {
    assert (code + rest)[|code|..] == rest;
  }

  lemma ValidAfter(c: nat, rest: bytes)
    requires IsScalar(c)
    ensures ValidUtf8(Encoded(c) + rest) <==> ValidUtf8(rest)
  {
    hide *;
    EncodedCharacter(c);
    CharacterThen(Encoded(c), rest);
  }

  lemma {:induction false} Utf8Valid(cs: seq<nat>)
    requires AllScalars(cs)
    ensures ValidUtf8(Utf8(cs))
  {
    if cs != [] {
      ValidAfter(cs[0], Utf8(cs[1..]));
      Utf8Valid(cs[1..]);
      hide ValidUtf8, Encoded;
      assert AllScalars(cs[1..]);
    } else {
      assert ValidUtf8([]);
    }
  }

  lemma TwoBytes(b0: byte, b1: byte)
    requires 0xC2 <= b0 <= 0xDF && Continuation(b1)
    ensures var c: nat := (b0 as int - 0xC0) * 64 + (b1 as int - 0x80); IsScalar(c) && Encoded(c) == [b0, b1]
  {
  }

  lemma Sixes(hi: nat, lo: nat)
    requires lo < 64
    ensures (hi * 64 + lo) / 64 == hi && (hi * 64 + lo) % 64 == lo
  {
  }

  lemma ThreeBytes(b0: byte, b1: byte, b2: byte)
    requires 0xE0 <= b0 <= 0xEF && Continuation(b1) && Continuation(b2)
    requires (b0 == 0xE0 ==> b1 >= 0xA0) && (b0 == 0xED ==> b1 <= 0x9F)
    ensures var c: nat := (b0 as int - 0xE0) * 4096 + (b1 as int - 0x80) * 64 + (b2 as int - 0x80);
            IsScalar(c) && Encoded(c) == [b0, b1, b2]
  {
    var hi: nat := (b0 as int - 0xE0) * 64 + (b1 as int - 0x80);
    var c: nat := hi * 64 + (b2 as int - 0x80);
    Sixes(hi, b2 as int - 0x80);
    Sixes(b0 as int - 0xE0, b1 as int - 0x80);
    assert c / 4096 == hi / 64;
  }

  lemma FourBytes(b0: byte, b1: byte, b2: byte, b3: byte)
    requires 0xF0 <= b0 <= 0xF4 && Continuation(b1) && Continuation(b2) && Continuation(b3)
    requires (b0 == 0xF0 ==> b1 >= 0x90) && (b0 == 0xF4 ==> b1 <= 0x8F)
    ensures var c: nat := (b0 as int - 0xF0) * 262144 + (b1 as int - 0x80) * 4096 + (b2 as int - 0x80) * 64
                          + (b3 as int - 0x80);
            IsScalar(c) && Encoded(c) == [b0, b1, b2, b3]
  {
    hide Encoded;
    var c: nat := (b0 as int - 0xF0) * 262144 + (b1 as int - 0x80) * 4096 + (b2 as int - 0x80) * 64
                  + (b3 as int - 0x80);
    Quotients(b0 as int - 0xF0, b1 as int - 0x80, b2 as int - 0x80, b3 as int - 0x80);
    EncodedInFour(c);
  }

  lemma Quotients(first: nat, second: nat, third: nat, fourth: nat)
    requires second < 64 && third < 64 && fourth < 64
    ensures var c := first * 262144 + second * 4096 + third * 64 + fourth;
            && c / 262144 == first && c / 4096 % 64 == second && c / 64 % 64 == third && c % 64 == fourth
  {
    var top: nat := first * 64 + second;
    var mid: nat := top * 64 + third;
    var c: nat := mid * 64 + fourth;
    Sixes(mid, fourth);
    Sixes(top, third);
    Sixes(first, second);
    Nested(c);
  }

  lemma Nested(c: nat)
    ensures c / 4096 == c / 64 / 64 && c / 262144 == c / 64 / 64 / 64
  {
  }

  lemma EncodedInFour(c: nat)
    requires 0x10000 <= c < 0x110000
    ensures Encoded(c) == [0xF0 + c / 262144, 0x80 + c / 4096 % 64, 0x80 + c / 64 % 64, 0x80 + c % 64]
  {
  }

  lemma FirstScalar(s: bytes) returns (c: nat)
    requires ValidUtf8(s) && s != []
    ensures IsScalar(c) && Encoded(c) <= s && ValidUtf8(s[|Encoded(c)|..])
  {
    if s[0] < 0x80 {
      c := s[0];
      assert Encoded(c) == [s[0]];
    } else if s[0] < 0xE0 {
      TwoBytes(s[0], s[1]);
      c := (s[0] as int - 0xC0) * 64 + (s[1] as int - 0x80);
    } else if s[0] < 0xF0 {
      ThreeBytes(s[0], s[1], s[2]);
      c := (s[0] as int - 0xE0) * 4096 + (s[1] as int - 0x80) * 64 + (s[2] as int - 0x80);
    } else {
      FourBytes(s[0], s[1], s[2], s[3]);
      c := (s[0] as int - 0xF0) * 262144 + (s[1] as int - 0x80) * 4096 + (s[2] as int - 0x80) * 64
           + (s[3] as int - 0x80);
    }
    hide Encoded, IsScalar;
  }

  /** Text is accepted as UTF-8 exactly when it encodes some scalar values: with `Utf8Valid`. */
  lemma {:induction false} Utf8Exact(s: bytes) returns (cs: seq<nat>)
    requires ValidUtf8(s)
    ensures AllScalars(cs) && Utf8(cs) == s
  {
    cs := [];
    if s != [] {
      var c := FirstScalar(s);
      hide ValidUtf8, Encoded;
      var rest := Utf8Exact(s[|Encoded(c)|..]);
      cs := [c] + rest;
      assert cs[1..] == rest;
      assert s == Encoded(c) + s[|Encoded(c)|..];
    }
  }
}
