/** Strings in configuration files: trimming, and adding and removing escapes. */
module CliText {

  datatype Result<T> = Ok(value: T) | InvalidArgument

  function IsSpace(c: char): bool {
    c == ' ' || c == '\t' || c == '\n' || c == '\U{0B}' || c == '\U{0C}' || c == '\r'
  }

  function TrimLeft(s: string): (t: string)
    ensures |t| <= |s|
  {
    if s != "" && IsSpace(s[0]) then TrimLeft(s[1..]) else s
  }

  function TrimRight(s: string): (t: string)
    ensures |t| <= |s|
  {
    if s != "" && IsSpace(s[|s| - 1]) then TrimRight(s[..|s| - 1]) else s
  }

  function Trim(s: string): (t: string)
    ensures |t| <= |s|
  {
    TrimLeft(TrimRight(s))
  }

  // ---- escapes ----

  /** The letter that stands for an escaped character after a backslash; '\0' for characters that
      are not escaped. */
  function Code(c: char): char {
    match c
    case '\U{08}' => 'b'
    case '\t' => 't'
    case '\n' => 'n'
    case '\U{0C}' => 'f'
    case '\r' => 'r'
    case '\"' => '\"'
    case '\\' => '\\'
    case _ => '\0'
  }

  predicate Escapable(c: char) {
    Code(c) != '\0'
  }

  /** The character that a letter stands for after a backslash. */
  function Decode(c: char): char
    requires c in "btnfr\"\\"
  {
    match c
    case 'b' => '\U{08}'
    case 't' => '\t'
    case 'n' => '\n'
    case 'f' => '\U{0C}'
    case 'r' => '\r'
    case _ => c
  }

  function Escaped(s: string): string {
    if s == "" then ""
    else (if Escapable(s[0]) then ['\\', Code(s[0])] else [s[0]]) + Escaped(s[1..])
  }

  function HexDigit(c: char): Result<nat> {
    if '0' <= c <= '9' then Ok(c as int - '0' as int)
    else if 'A' <= c <= 'F' then Ok(c as int - 'A' as int + 10)
    else if 'a' <= c <= 'f' then Ok(c as int - 'a' as int + 10)
    else InvalidArgument
  }

  /** The number that a string of hexadecimal digits denotes. */
  function HexValue(s: string): Result<nat> {
    if s == "" then Ok(0)
    else
      match (HexValue(s[..|s| - 1]), HexDigit(s[|s| - 1]))
      case (Ok(high), Ok(low)) => Ok(16 * high + low)
      case _ => InvalidArgument
  }

  function Byte(n: int): char
    requires 0 <= n < 256
  {
    n as char
  }

  /** The bytes of a code point in UTF-8; nothing for numbers beyond the last code point. */
  function CodePoint(code: nat): Result<string> {
    if code < 0x80 then Ok([Byte(code)])
    else if code < 0x800 then Ok([Byte(0xC0 + code / 64), Byte(0x80 + code % 64)])
    else if code < 0x10000 then
      if 0xD800 <= code <= 0xDFFF then InvalidArgument
      else Ok([Byte(0xE0 + code / 4096), Byte(0x80 + code / 64 % 64), Byte(0x80 + code % 64)])
    else if code < 0x110000 then
      Ok([Byte(0xF0 + code / 262144), Byte(0x80 + code / 4096 % 64), Byte(0x80 + code / 64 % 64), Byte(0x80 + code % 64)])
    else Ok("")
  }

  /** How much text the escape sequence at the front of `s` takes, and what it stands for. */
  function FrontEscape(s: string): (r: Result<(nat, string)>)
    requires s != "" && s[0] == '\\'
    ensures r.Ok? ==> 2 <= r.value.0 <= |s|
  {
    if |s| < 2 then InvalidArgument
    else if s[1] in "btnfr\"\\" then Ok((2, [Decode(s[1])]))
    else if s[1] == 'u' || s[1] == 'U' then
      var n := if s[1] == 'u' then 6 else 10;
      if |s| < n then InvalidArgument
      else match HexValue(s[2..n])
        case InvalidArgument => InvalidArgument
        case Ok(code) =>
          match CodePoint(code)
          case InvalidArgument => InvalidArgument
          case Ok(bytes) => Ok((n, bytes))
    else if s[1] == '0' then Ok((2, "\0"))
    else InvalidArgument
  }

  function Prepend(text: string, r: Result<string>): Result<string> {
    match r
    case InvalidArgument => InvalidArgument
    case Ok(rest) => Ok(text + rest)
  }

  function Unescaped(s: string): Result<string> {
    if s == "" then Ok("")
    else if s[0] != '\\' then Prepend([s[0]], Unescaped(s[1..]))
    else
      match FrontEscape(s)
      case InvalidArgument => InvalidArgument
      case Ok((n, text)) => Prepend(text, Unescaped(s[n..]))
  }

  lemma PrependTwice(a: string, b: string, r: Result<string>)
    ensures Prepend(a, Prepend(b, r)) == Prepend(a + b, r)
    ensures Prepend("", r) == r
  {
    if r.Ok? {
      assert a + (b + r.value) == a + b + r.value;
      assert "" + r.value == r.value;
    }
  }

  /** Taking the escapes out of escaped text gives the text back, whatever it is. */
  lemma {:induction false} UnescapedInvertsEscaped(s: string)
    ensures Unescaped(Escaped(s)) == Ok(s)
  {
    if s != "" {
      UnescapedInvertsEscaped(s[1..]);
      var e := Escaped(s);
      if Escapable(s[0]) {
        assert e[0] == '\\' && e[1] == Code(s[0]) && e[2..] == Escaped(s[1..]);
        assert Code(s[0]) in "btnfr\"\\" && Decode(Code(s[0])) == s[0];
        assert FrontEscape(e) == Ok((2, [s[0]]));
      } else {
        assert e[0] == s[0] && e[1..] == Escaped(s[1..]);
      }
      assert [s[0]] + s[1..] == s;
    }
  }

  /** A backslash and a letter: what they stand for. */
  lemma LetterStandsFor(letter: char, rest: string)
    requires letter != 'u' && letter != 'U'
    ensures Unescaped(['\\', letter] + rest) ==
            if letter == 'b' then Prepend("\U{08}", Unescaped(rest))
            else if letter == 't' then Prepend("\t", Unescaped(rest))
            else if letter == 'n' then Prepend("\n", Unescaped(rest))
            else if letter == 'f' then Prepend("\U{0C}", Unescaped(rest))
            else if letter == 'r' then Prepend("\r", Unescaped(rest))
            else if letter == '\"' then Prepend("\"", Unescaped(rest))
            else if letter == '\\' then Prepend("\\", Unescaped(rest))
            else if letter == '0' then Prepend("\0", Unescaped(rest))
            else InvalidArgument
  {
    var s := ['\\', letter] + rest;
    assert s[0] == '\\' && s[1] == letter && s[2..] == rest;
  }

  /** What is escaped, and how; every other character stays as it is. */
  lemma EscapedAs(c: char)
    ensures Escaped([c]) ==
            if c == '\U{08}' then "\\b" else if c == '\t' then "\\t" else if c == '\n' then "\\n"
            else if c == '\U{0C}' then "\\f" else if c == '\r' then "\\r"
            else if c == '\"' then "\\\"" else if c == '\\' then "\\\\" else [c]
  {
    assert [c][1..] == "" && Escaped("") == "";
  }

  lemma EscapedStep(s: string, i: nat, before: string, out: string)
    requires i < |s| && out == before + if Escapable(s[i]) then ['\\', Code(s[i])] else [s[i]]
    ensures before + Escaped(s[i..]) == out + Escaped(s[i + 1..])
  {
    hide Escapable, Code;
    assert s[i..][1..] == s[i + 1..];
  }

  method AddEscapedCharacters(s: string) returns (out: string)
    ensures out == Escaped(s)
  {
    out := "";
    assert s[0..] == s && s[|s|..] == "" && Escaped("") == "";
    hide Escaped, Escapable, Code;
    for i := 0 to |s|
      invariant Escaped(s) == out + Escaped(s[i..])
    {
      ghost var before := out;
      if Escapable(s[i]) {
        out := out + ['\\'];
        out := out + [Code(s[i])];
      } else {
        out := out + [s[i]];
      }
      EscapedStep(s, i, before, out);
    }
  }

  method RemoveEscapedCharacters(s: string) returns (r: Result<string>)
    ensures r == Unescaped(s)
  {
    var out := "";
    var loc := 0;
    assert s[loc..] == s;
    PrependTwice("", "", Unescaped(s));
    while loc < |s|
      invariant 0 <= loc <= |s|
      invariant Unescaped(s) == Prepend(out, Unescaped(s[loc..]))
    {
      ghost var rest := s[loc..];
      assert rest[0] == s[loc] && rest[1..] == s[loc + 1..];
      if s[loc] == '\\' {
        var front := FrontEscape(s[loc..]);
        if front.InvalidArgument? {
          return InvalidArgument;
        }
        var (n, text) := front.value;
        assert rest[n..] == s[loc + n..];
        PrependTwice(out, text, Unescaped(s[loc + n..]));
        out := out + text;
        loc := loc + n;
      } else {
        PrependTwice(out, [s[loc]], Unescaped(s[loc + 1..]));
        out := out + [s[loc]];
        loc := loc + 1;
      }
    }
    assert s[loc..] == "";
    assert out + "" == out;
    r := Ok(out);
  }
}
