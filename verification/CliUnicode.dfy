/** Unicode escapes: what they stand for is the UTF-8 form of their code point. */
module CliUnicode {
  import opened CliText

  // ---- UTF-8 ----

  predicate Continues(c: char) {
    0x80 <= c as int < 0xC0
  }

  function Low(c: char): int {
    c as int - 0x80
  }

  predicate IsSurrogate(code: int) {
    0xD800 <= code <= 0xDFFF
  }

  /** The code point that bytes are the UTF-8 form of (RFC 3629, section 3): continuation bytes have
      to continue, no form may be longer than needed, and surrogates have none. */
  function DecodeUtf8(b: string): Result<int> {
    if |b| == 1 && b[0] as int < 0x80 then Ok(b[0] as int)
    else if |b| == 2 && 0xC0 <= b[0] as int < 0xE0 && Continues(b[1]) then
      var code := (b[0] as int - 0xC0) * 64 + Low(b[1]);
      if 0x80 <= code then Ok(code) else InvalidArgument
    else if |b| == 3 && 0xE0 <= b[0] as int < 0xF0 && Continues(b[1]) && Continues(b[2]) then
      var code := (b[0] as int - 0xE0) * 4096 + Low(b[1]) * 64 + Low(b[2]);
      if 0x800 <= code && !IsSurrogate(code) then Ok(code) else InvalidArgument
    else if |b| == 4 && 0xF0 <= b[0] as int < 0xF8 && Continues(b[1]) && Continues(b[2]) && Continues(b[3]) then
      var code := (b[0] as int - 0xF0) * 262144 + Low(b[1]) * 4096 + Low(b[2]) * 64 + Low(b[3]);
      if 0x10000 <= code < 0x110000 then Ok(code) else InvalidArgument
    else InvalidArgument
  }

  lemma SixBits(code: nat)
    ensures code == code / 64 * 64 + code % 64
    ensures code / 64 == code / 4096 * 64 + code / 64 % 64
    ensures code / 4096 == code / 262144 * 64 + code / 4096 % 64
  {
    assert code / 64 / 64 == code / 4096;
    assert code / 4096 / 64 == code / 262144;
  }

  lemma ThreeBytes(a: int, b: int, c: int)
    requires 0 <= a < 16 && 0 <= b < 64 && 0 <= c < 64
    requires 0x800 <= a * 4096 + b * 64 + c && !IsSurrogate(a * 4096 + b * 64 + c)
    ensures DecodeUtf8([Byte(0xE0 + a), Byte(0x80 + b), Byte(0x80 + c)]) == Ok(a * 4096 + b * 64 + c)
  {
  }

  lemma FourBytes(a: int, b: int, c: int, d: int)
    requires 0 <= a < 8 && 0 <= b < 64 && 0 <= c < 64 && 0 <= d < 64
    requires 0x10000 <= a * 262144 + b * 4096 + c * 64 + d < 0x110000
    ensures DecodeUtf8([Byte(0xF0 + a), Byte(0x80 + b), Byte(0x80 + c), Byte(0x80 + d)]) ==
            Ok(a * 262144 + b * 4096 + c * 64 + d)
  {
  }

  /** What is appended for a code point is its UTF-8 form; a surrogate is an error, and a number beyond
      the last code point stands for nothing. */
  lemma CodePointIsUtf8(code: nat)
    ensures IsSurrogate(code) ==> CodePoint(code) == InvalidArgument
    ensures code >= 0x110000 ==> CodePoint(code) == Ok("")
    ensures !IsSurrogate(code) && code < 0x110000 ==> CodePoint(code).Ok? && DecodeUtf8(CodePoint(code).value) == Ok(code)
  {
    SixBits(code);
    if 0x800 <= code < 0x10000 {
      if !IsSurrogate(code) {
        hide DecodeUtf8;
        ThreeBytes(code / 4096, code / 64 % 64, code % 64);
      }
    } else if 0x10000 <= code < 0x110000 {
      hide DecodeUtf8;
      FourBytes(code / 262144, code / 4096 % 64, code / 64 % 64, code % 64);
    }
  }

  lemma SplitDigit(x: int, y: int)
    requires 0 <= y < 64
    ensures (64 * x + y) / 64 == x && (64 * x + y) % 64 == y
  {
  }

  lemma TwoForm(a: int, b: int)
    requires 0 <= a < 32 && 0 <= b < 64 && 0x80 <= a * 64 + b
    ensures CodePoint(a * 64 + b) == Ok([Byte(0xC0 + a), Byte(0x80 + b)])
  {
    SplitDigit(a, b);
  }

  lemma ThreeForm(a: int, b: int, c: int)
    requires 0 <= a < 16 && 0 <= b < 64 && 0 <= c < 64
    requires 0x800 <= a * 4096 + b * 64 + c && !IsSurrogate(a * 4096 + b * 64 + c)
    ensures CodePoint(a * 4096 + b * 64 + c) == Ok([Byte(0xE0 + a), Byte(0x80 + b), Byte(0x80 + c)])
  {
    var code := a * 4096 + b * 64 + c;
    assert code == 64 * (64 * a + b) + c;
    SplitDigit(64 * a + b, c);
    SplitDigit(a, b);
    assert code / 4096 == code / 64 / 64;
  }

  lemma FourForm(a: int, b: int, c: int, d: int)
    requires 0 <= a < 8 && 0 <= b < 64 && 0 <= c < 64 && 0 <= d < 64
    requires 0x10000 <= a * 262144 + b * 4096 + c * 64 + d < 0x110000
    ensures CodePoint(a * 262144 + b * 4096 + c * 64 + d) ==
            Ok([Byte(0xF0 + a), Byte(0x80 + b), Byte(0x80 + c), Byte(0x80 + d)])
  {
    var code := a * 262144 + b * 4096 + c * 64 + d;
    assert code == 64 * (64 * (64 * a + b) + c) + d;
    SplitDigit(64 * (64 * a + b) + c, d);
    SplitDigit(64 * a + b, c);
    SplitDigit(a, b);
    assert code / 4096 == code / 64 / 64 && code / 262144 == code / 4096 / 64;
  }

  /** A code point has no other UTF-8 form. */
  lemma Utf8IsUnique(b: string, code: nat)
    requires DecodeUtf8(b) == Ok(code)
    ensures CodePoint(code) == Ok(b)
  {
    if |b| == 1 {
      assert b == [b[0]];
    } else if |b| == 2 {
      hide CodePoint;
      TwoForm(b[0] as int - 0xC0, Low(b[1]));
      assert b == [b[0], b[1]];
    } else if |b| == 3 {
      hide CodePoint;
      ThreeForm(b[0] as int - 0xE0, Low(b[1]), Low(b[2]));
      assert b == [b[0], b[1], b[2]];
    } else {
      hide CodePoint;
      FourForm(b[0] as int - 0xF0, Low(b[1]), Low(b[2]), Low(b[3]));
      assert b == [b[0], b[1], b[2], b[3]];
    }
  }

  // ---- hexadecimal digits ----

  const UPPER := "0123456789ABCDEF"
  const LOWER := "0123456789abcdef"

  /** The text has the number's digits, the last one in place of the units. */
  ghost predicate Denotes(s: string, n: nat) {
    if s == "" then n == 0
    else Denotes(s[..|s| - 1], n / 16) && (s[|s| - 1] == UPPER[n % 16] || s[|s| - 1] == LOWER[n % 16])
  }

  lemma DigitIs(c: char, d: nat)
    requires d < 16
    ensures c == UPPER[d] || c == LOWER[d] <==> HexDigit(c) == Ok(d)
  {
    if d < 10 {
      assert UPPER[d] == LOWER[d] == '0' + d as char;
    } else {
      assert UPPER[d] == 'A' + (d - 10) as char && LOWER[d] == 'a' + (d - 10) as char;
    }
  }

  /** Digits in either case are read as the number they denote, and nothing else is read as a number. */
  lemma {:induction false} HexIsRead(s: string, n: nat)
    ensures HexValue(s) == Ok(n) <==> Denotes(s, n)
  {
    if s != "" {
      var high, low := HexValue(s[..|s| - 1]), HexDigit(s[|s| - 1]);
      HexIsRead(s[..|s| - 1], n / 16);
      DigitIs(s[|s| - 1], n % 16);
      DigitBound(s[|s| - 1]);
      if high.Ok? && low.Ok? {
        UnitsApart(n, high.value, low.value);
      }
      hide HexDigit;
    }
  }

  lemma UnitsApart(n: nat, high: nat, low: nat)
    requires low < 16
    ensures 16 * high + low == n <==> high == n / 16 && low == n % 16
  {
  }

  lemma DigitBound(c: char)
    ensures HexDigit(c).Ok? ==> HexDigit(c).value < 16
  {
  }

  // ---- the escapes ----

  /** Where a short or a long escape stands, its code point is appended in UTF-8, and the text goes on
      after it; without enough digits there is no code point. */
  lemma EscapeStandsForCodePoint(hex: string, long: bool, code: nat, rest: string)
    requires |hex| == (if long then 8 else 4) && Denotes(hex, code)
    ensures Unescaped((if long then "\\U" else "\\u") + hex + rest) ==
            match CodePoint(code) case InvalidArgument => InvalidArgument case Ok(bytes) => Prepend(bytes, Unescaped(rest))
  {
    var s := (if long then "\\U" else "\\u") + hex + rest;
    HexIsRead(hex, code);
    assert s[0] == '\\' && s[1] == (if long then 'U' else 'u') && s[1] !in "btnfr\"\\";
    assert s[2..2 + |hex|] == hex && s[2 + |hex|..] == rest;
  }

  /** A backslash at the end, and an escape that the text is too short for, are errors. */
  lemma CutOff(rest: string, long: bool)
    requires |rest| < if long then 8 else 4
    ensures Unescaped("\\") == InvalidArgument
    ensures Unescaped((if long then "\\U" else "\\u") + rest) == InvalidArgument
  {
    var s := (if long then "\\U" else "\\u") + rest;
    assert s[0] == '\\' && s[1] == (if long then 'U' else 'u') && s[1] !in "btnfr\"\\";
  }

  lemma BadEscape(hex: string, long: bool, rest: string)
    requires |hex| == (if long then 8 else 4) && forall code: nat :: !Denotes(hex, code)
    ensures Unescaped((if long then "\\U" else "\\u") + hex + rest) == InvalidArgument
  {
    var s := (if long then "\\U" else "\\u") + hex + rest;
    if HexValue(hex).Ok? { HexIsRead(hex, HexValue(hex).value); }
    assert s[0] == '\\' && s[1] == (if long then 'U' else 'u') && s[1] !in "btnfr\"\\";
    assert s[2..2 + |hex|] == hex;
  }
}
