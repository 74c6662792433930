/** Printing a list of strings as a configuration value, and reading it back. */
module CliRoundTrip {
  import opened CliText
  import opened CliSplit
  import opened CliSplitUp

  // ---- printing ----

  predicate IsPrint(c: char) {
    ' ' <= c <= '~'
  }

  predicate Decimal(c: char) {
    '0' <= c <= '9' || c == '.' || c == '-' || c == '+' || c == 'e' || c == 'E'
  }

  /** The rest of a hexadecimal, octal or binary number, by the letter after its leading zero. */
  predicate Digits(s: string, letter: char) {
    match letter
    case 'x' => forall c | c in s :: '0' <= c <= '9' || 'A' <= c <= 'F' || 'a' <= c <= 'f'
    case 'o' => forall c | c in s :: '0' <= c <= '7'
    case 'b' => forall c | c in s :: c == '0' || c == '1'
    case _ => false
  }

  predicate Keyword(arg: string) {
    arg == "true" || arg == "false" || arg == "nan" || arg == "inf"
  }

  /** A number in decimal notation; whether a string parses as a number is left to `isNumber`. */
  predicate DecimalNumber(arg: string, isNumber: string -> bool) {
    !("0x" <= arg) && !("0X" <= arg) && isNumber(arg) && forall c | c in arg :: Decimal(c)
  }

  /** Text that the printer does not write in binary form. */
  predicate Printable(arg: string) {
    forall c | c in arg :: IsPrint(c) || (|arg| > 1 && (c == '\n' || c == '\t'))
  }

  /** `convert_arg_for_ini`; `binary` is the form of text that is not printable. */
  function Convert(arg: string, sq: char, lq: char, disableMultiLine: bool,
                   isNumber: string -> bool, binary: string -> string): string
  {
    if arg == "" then [sq, sq]
    else if Keyword(arg) then arg
    else if DecimalNumber(arg, isNumber) then arg
    else if |arg| == 1 then
      if !IsPrint(arg[0]) then binary(arg)
      else if arg[0] == '\'' then [sq, arg[0], sq]
      else [lq, arg[0], lq]
    else if arg[0] == '0' && Digits(arg[2..], arg[1]) then arg
    else if !Printable(arg) then binary(arg)
    else if exists c :: c in arg && Escapable(c) then
      if |arg| > 100 && !disableMultiLine then "'''" + arg + "'''"
      else [sq] + Escaped(arg) + [sq]
    else [sq] + arg + [sq]
  }

  function SeparatorText(sep: char): string {
    if IsSpace(sep) then [sep] else [sep, ' ']
  }

  function Joined(parts: seq<string>, sep: char): string {
    if parts == [] then ""
    else if |parts| == 1 then parts[0]
    else Joined(parts[..|parts| - 1], sep) + SeparatorText(sep) + parts[|parts| - 1]
  }

  /** The printed forms of a list of values. */
  function Printed(args: seq<string>, sq: char, lq: char, disableMultiLine: bool,
                   isNumber: string -> bool, binary: string -> string): (parts: seq<string>)
    ensures |parts| == |args|
    ensures forall i | 0 <= i < |args| :: parts[i] == Convert(args[i], sq, lq, disableMultiLine, isNumber, binary)
  {
    seq(|args|, i requires 0 <= i < |args| => Convert(args[i], sq, lq, disableMultiLine, isNumber, binary))
  }

  /** Text between two brackets, either of which may be missing. */
  function Wrap(start: char, end: char, text: string): string {
    (if start != '\0' then [start] else "") + text + (if end != '\0' then [end] else "")
  }

  lemma JoinOne(front: string, parts: seq<string>, i: nat, sep: char)
    requires i < |parts|
    ensures var before := front + Joined(parts[..i], sep);
      front + Joined(parts[..i + 1], sep)
      == (if i == 0 then before else if IsSpace(sep) then before + [sep] else before + [sep] + [' ']) + parts[i]
  {
    var before := Joined(parts[..i], sep);
    assert parts[..i + 1][..i] == parts[..i];
    if i > 0 {
      assert front + (before + SeparatorText(sep) + parts[i]) == front + before + SeparatorText(sep) + parts[i];
      if !IsSpace(sep) {
        assert front + before + SeparatorText(sep) == front + before + [sep] + [' '];
      }
    } else {
      assert front + before == front;
    }
  }

  method IniJoin(args: seq<string>, sep: char, arrayStart: char, arrayEnd: char, sq: char, lq: char,
                 isNumber: string -> bool, binary: string -> string) returns (joined: string)
    ensures joined == Wrap(if |args| > 1 then arrayStart else '\0', if |args| > 1 then arrayEnd else '\0',
      Joined(Printed(args, sq, lq, |args| > 1 && arrayStart != '\0', isNumber, binary), sep))
  {
    var disableMultiLine := false;
    joined := "";
    if |args| > 1 && arrayStart != '\0' {
      joined := joined + [arrayStart];
      disableMultiLine := true;
    }
    ghost var front, parts := joined, Printed(args, sq, lq, disableMultiLine, isNumber, binary);
    var start := 0;
    for i := 0 to |args|
      invariant start == i && joined == front + Joined(parts[..i], sep)
    {
      JoinOne(front, parts, i, sep);
      if start > 0 {
        joined := joined + [sep];
        if !IsSpace(sep) {
          joined := joined + [' '];
        }
      }
      start := start + 1;
      joined := joined + Convert(args[i], sq, lq, disableMultiLine, isNumber, binary);
    }
    assert parts[..|args|] == parts;
    ghost var text := Joined(parts, sep);
    if |args| > 1 && arrayEnd != '\0' {
      joined := joined + [arrayEnd];
      assert joined == front + text + [arrayEnd];
    } else {
      assert joined == front + text + "";
    }
    assert disableMultiLine == (|args| > 1 && arrayStart != '\0');
    assert text == Joined(Printed(args, sq, lq, |args| > 1 && arrayStart != '\0', isNumber, binary), sep);
    WrapIs(if |args| > 1 then arrayStart else '\0', if |args| > 1 then arrayEnd else '\0', text, front, joined);
  }

  lemma WrapIs(start: char, end: char, text: string, front: string, whole: string)
    requires front == if start != '\0' then [start] else ""
    requires whole == front + text + if end != '\0' then [end] else ""
    ensures whole == Wrap(start, end, text)
  {
  }

  // ---- reading back ----

  /** The forms that `process_quoted_string` takes for binary text. */
  predicate IsBinary(s: string) {
    || ("B\"(" <= s && |s| >= 2 && s[|s| - 2..] == ")\"")
    || ("'B\"(" <= s && |s| >= 3 && s[|s| - 3..] == ")\"'")
  }

  /** `process_quoted_string`; `fromBinary` undoes the binary form. */
  function ProcessQuoted(s: string, sq: char, lq: char, fromBinary: string -> string): Result<string> {
    if |s| <= 1 then Ok(s)
    else if IsBinary(s) then Ok(fromBinary(s))
    else
      var first, last, inner := s[0], s[|s| - 1], s[1..|s| - 1];
      if first == sq && last == sq then (if '\\' in inner then Unescaped(inner) else Ok(inner))
      else if (first == lq || first == '`') && last == first then Ok(inner)
      else Ok(s)
  }

  /** What a piece reads as, unless it has the binary form: quoted text without its quotes, and without
      escapes in string quotes; words and groups as they stand. */
  lemma PieceReads(p: Piece, delimiter: char, fromBinary: string -> string)
    requires GoodPiece(p, delimiter) && !IsBinary(PieceText(p))
    ensures var read := ProcessQuoted(PieceText(p), '\"', '\'', fromBinary);
      && (p.Quote? && p.q != '\"' ==> read == Ok(p.body))
      && (p.Quote? && p.q == '\"' ==> forall raw :: p.body == Escaped(raw) ==> read == Ok(raw))
      && (p.Bare? || p.Bracketed? ==> read == Ok(PieceText(p)))
  {
    match p
    case Bare(word) =>
    case Quote(q, body) =>
      assert PieceText(p)[1..|PieceText(p)| - 1] == body;
      forall raw | q == '\"' && body == Escaped(raw)
        ensures ProcessQuoted(PieceText(p), '\"', '\'', fromBinary) == Ok(raw)
      {
        QuotedReads(raw, fromBinary);
      }
    case Bracketed(kind, inner) => BracketKind(kind);
  }

  /** A printed value: one piece of a list that reads back as `arg`. */
  ghost predicate Token(t: string, arg: string, fromBinary: string -> string) {
    IsPiece(t, ',') && ProcessQuoted(t, '\"', '\'', fromBinary) == Ok(arg)
  }

  lemma {:induction false} NothingToEscape(s: string)
    requires '\\' !in Escaped(s)
    ensures Escaped(s) == s
  {
    if s != "" {
      assert Escaped(s)[0] in Escaped(s);
      assert !Escapable(s[0]);
      NothingToEscape(s[1..]);
    }
  }

  lemma {:induction false} EscapedIfNothingToEscape(s: string)
    requires forall c | c in s :: !Escapable(c)
    ensures Escaped(s) == s
  {
    if s != "" {
      assert s[0] in s;
      EscapedIfNothingToEscape(s[1..]);
    }
  }

  lemma QuotedReads(arg: string, fromBinary: string -> string)
    ensures var t := ['\"'] + Escaped(arg) + ['\"'];
      Tidy(t) && ProcessQuoted(t, '\"', '\'', fromBinary) == Ok(arg)
  {
    var t := ['\"'] + Escaped(arg) + ['\"'];
    assert t[1..|t| - 1] == Escaped(arg);
    UnescapedInvertsEscaped(arg);
    if '\\' !in Escaped(arg) {
      NothingToEscape(arg);
    }
  }

  /** A value in string quotes reads back. */
  lemma QuotedToken(arg: string, fromBinary: string -> string)
    ensures Token(['\"'] + Escaped(arg) + ['\"'], arg, fromBinary)
  {
    QuotedReads(arg, fromBinary);
    assert GoodPiece(Quote('\"', Escaped(arg)), ',');
    assert PieceText(Quote('\"', Escaped(arg))) == ['\"'] + Escaped(arg) + ['\"'];
  }

  /** A single character in literal quotes reads back. */
  lemma LiteralToken(c: char, fromBinary: string -> string)
    requires c != '\''
    ensures Token(['\'', c, '\''], [c], fromBinary)
  {
    var t := ['\'', c, '\''];
    assert t[1..2] == [c];
    assert GoodPiece(Quote('\'', [c]), ',') && PieceText(Quote('\'', [c])) == t;
  }

  predicate Word(c: char) {
    '0' <= c <= '9' || 'a' <= c <= 'z' || 'A' <= c <= 'Z' || c == '.' || c == '-' || c == '+'
  }

  lemma WordStays(t: string, fromBinary: string -> string)
    requires t != "" && forall c | c in t :: Word(c)
    ensures Tidy(t) && ProcessQuoted(t, '\"', '\'', fromBinary) == Ok(t)
  {
    assert t[0] in t && t[|t| - 1] in t;
    assert |t| > 1 ==> t[1] in t;
  }

  /** A value printed as it stands reads back. */
  lemma WordToken(t: string, fromBinary: string -> string)
    requires t != "" && forall c | c in t :: Word(c)
    ensures Token(t, t, fromBinary)
  {
    WordStays(t, fromBinary);
    assert t[0] in t && PieceText(Bare(t)) == t;
    assert GoodPiece(Bare(t), ',');
  }

  lemma NumberIsWord(arg: string)
    requires |arg| > 1 && arg[0] == '0' && Digits(arg[2..], arg[1])
    ensures forall c | c in arg :: Word(c)
  {
    forall c | c in arg
      ensures Word(c)
    {
      var i :| 0 <= i < |arg| && arg[i] == c;
      if i >= 2 { assert arg[2..][i - 2] in arg[2..]; }
    }
  }

  /** The three forms in which a printable value is printed. */
  lemma PrintedForms(arg: string, t: string, isNumber: string -> bool, binary: string -> string)
    requires Printable(arg) && t == Convert(arg, '\"', '\'', true, isNumber, binary)
    ensures
      || (t == arg != "" && forall c | c in arg :: Word(c))
      || (|arg| == 1 && arg[0] != '\'' && t == ['\'', arg[0], '\''])
      || t == ['\"'] + Escaped(arg) + ['\"']
  {
    if arg == "" {
    } else if Keyword(arg) {
      KeywordIsWord(arg);
    } else if DecimalNumber(arg, isNumber) {
    } else if |arg| == 1 {
      assert arg[0] in arg;
      if arg[0] == '\'' {
        EscapedQuote(arg);
      }
    } else if arg[0] == '0' && Digits(arg[2..], arg[1]) {
      NumberIsWord(arg);
    } else if !(exists c :: c in arg && Escapable(c)) {
      EscapedIfNothingToEscape(arg);
    }
  }

  /** Printed as they stand are certain words, and numbers; otherwise a single character, save the
      quote itself, is printed in literal quotes. */
  lemma PrintedBare(arg: string, t: string, isNumber: string -> bool, binary: string -> string)
    requires Printable(arg) && t == Convert(arg, '\"', '\'', true, isNumber, binary)
    ensures t == arg <==>
      || arg in {"true", "false", "nan", "inf"} || (arg != "" && DecimalNumber(arg, isNumber))
      || (|arg| > 1 && arg[0] == '0' && Digits(arg[2..], arg[1]))
    ensures |arg| == 1 && t != arg && arg[0] != '\'' ==> t == ['\'', arg[0], '\'']
  {
    assert arg in {"true", "false", "nan", "inf"} <==> Keyword(arg);
    hide Keyword, DecimalNumber, Digits, Escapable, Printable, Escaped;
    EscapedIsLonger(arg);
    if |arg| == 1 { SingleIsPrint(arg); }
    assert |t| > |arg| || t == arg;
  }

  lemma SingleIsPrint(arg: string)
    requires |arg| == 1 && Printable(arg)
    ensures IsPrint(arg[0])
  {
    assert arg[0] in arg;
  }

  lemma {:induction false} EscapedIsLonger(s: string)
    ensures |Escaped(s)| >= |s|
  {
    hide Escapable;
    if s != "" { EscapedIsLonger(s[1..]); }
  }

  lemma EscapedQuote(arg: string)
    requires |arg| == 1 && arg[0] == '\''
    ensures ['\"'] + Escaped(arg) + ['\"'] == ['\"', arg[0], '\"']
  {
    assert arg[1..] == "" && Escaped(arg[1..]) == "";
  }

  lemma KeywordIsWord(arg: string)
    requires Keyword(arg)
    ensures forall c | c in arg :: Word(c)
  {
    assert forall i | 0 <= i < |arg| :: Word(arg[i]);
  }

  /** Whatever the printer makes of a printable value is a token for it. */
  lemma ConvertedIsToken(arg: string, isNumber: string -> bool, binary: string -> string, fromBinary: string -> string)
    requires Printable(arg)
    ensures Token(Convert(arg, '\"', '\'', true, isNumber, binary), arg, fromBinary)
  {
    var t := Convert(arg, '\"', '\'', true, isNumber, binary);
    PrintedForms(arg, t, isNumber, binary);
    if t == ['\"'] + Escaped(arg) + ['\"'] {
      QuotedToken(arg, fromBinary);
    } else if t == arg {
      WordToken(arg, fromBinary);
    } else {
      LiteralToken(arg[0], fromBinary);
      assert arg == [arg[0]];
    }
  }

  // ---- the round trip ----

  lemma {:induction false} JoinedFromFront(parts: seq<string>, sep: char)
    requires |parts| > 1
    ensures Joined(parts, sep) == parts[0] + SeparatorText(sep) + Joined(parts[1..], sep)
  {
    var last := |parts| - 1;
    if |parts| > 2 {
      JoinedFromFront(parts[..last], sep);
      assert parts[..last][1..] == parts[1..][..last - 1];
      var mid := Joined(parts[1..][..last - 1], sep);
      assert parts[0] + SeparatorText(sep) + mid + SeparatorText(sep) + parts[last]
          == parts[0] + SeparatorText(sep) + (mid + SeparatorText(sep) + parts[last]);
    }
  }

  ghost predicate Tokens(parts: seq<string>, args: seq<string>, fromBinary: string -> string) {
    |parts| == |args| && forall i | 0 <= i < |args| :: Token(parts[i], args[i], fromBinary)
  }

  /** A joined list is its parts, with a comma and a space between them. */
  lemma {:induction false} JoinedIsLaid(parts: seq<string>, gaps: seq<string>)
    requires parts != [] && |gaps| == |parts| - 1 && forall i | 0 <= i < |gaps| :: gaps[i] == ", "
    ensures Joined(parts, ',') == Laid(parts, gaps)
  {
    if |parts| > 1 {
      JoinedFromFront(parts, ',');
      JoinedIsLaid(parts[1..], gaps[1..]);
    }
  }

  /** A joined list of tokens is tidy, and splits into the tokens. */
  lemma JoinedSplits(parts: seq<string>, args: seq<string>, fromBinary: string -> string)
    requires Tokens(parts, args, fromBinary) && parts != []
    ensures Tidy(Joined(parts, ',')) && Parts(Joined(parts, ','), ',') == parts
  {
    var gaps := seq(|parts| - 1, _ => ", ");
    JoinedIsLaid(parts, gaps);
    assert WellLaid(parts, gaps, ',') by {
      assert forall i | 0 <= i < |parts| :: Token(parts[i], args[i], fromBinary);
    }
    SplitsIntoPieces(parts, gaps, ',');
  }

  lemma PrintedAreTokens(args: seq<string>, isNumber: string -> bool, binary: string -> string, fromBinary: string -> string)
    requires forall arg | arg in args :: Printable(arg)
    ensures Tokens(Printed(args, '\"', '\'', true, isNumber, binary), args, fromBinary)
  {
    forall i | 0 <= i < |args|
      ensures Token(Printed(args, '\"', '\'', true, isNumber, binary)[i], args[i], fromBinary)
    {
      assert args[i] in args;
      ConvertedIsToken(args[i], isNumber, binary, fromBinary);
    }
  }

  /** Reading a printed list: the text between its brackets is split, and each part processed. */
  method ReadList(text: string, fromBinary: string -> string) returns (read: seq<Result<string>>)
    requires |text| > 1
    ensures var parts := Parts(Trim(text[1..|text| - 1]), ',');
      |read| == |parts| && forall i | 0 <= i < |parts| :: read[i] == ProcessQuoted(parts[i], '\"', '\'', fromBinary)
  {
    hide ProcessQuoted, Parts, Trim;
    var items := SplitUp(text[1..|text| - 1], ',');
    read := [];
    for i := 0 to |items|
      invariant |read| == i
      invariant forall j | 0 <= j < i :: read[j] == ProcessQuoted(items[j], '\"', '\'', fromBinary)
    {
      read := read + [ProcessQuoted(items[i], '\"', '\'', fromBinary)];
    }
  }

  /** A list in brackets, of words, quotes and groups, is read as exactly these. */
  lemma ListReads(parts: seq<string>, gaps: seq<string>, before: string, after: string)
    requires WellLaid(parts, gaps, ',') && Spaces(before) && Spaces(after)
    ensures var text := "[" + (before + Laid(parts, gaps) + after) + "]";
      Parts(Trim(text[1..|text| - 1]), ',') == parts
  {
    var inner := before + Laid(parts, gaps) + after;
    var text := "[" + inner + "]";
    assert text[1..|text| - 1] == inner;
    LineSplits(parts, gaps, before, after, ',');
  }

  /** Printing a list of two or more printable strings, taking off the brackets, splitting at the
      commas and processing the quotes gives back the list, whatever counts as a number. */
  method RoundTrip(args: seq<string>, isNumber: string -> bool, binary: string -> string, fromBinary: string -> string)
      returns (read: seq<Result<string>>)
    requires |args| > 1 && forall arg | arg in args :: Printable(arg)
    ensures |read| == |args| && forall i | 0 <= i < |args| :: read[i] == Ok(args[i])
  {
    var joined := IniJoin(args, ',', '[', ']', '\"', '\'', isNumber, binary);
    ghost var printed := Printed(args, '\"', '\'', true, isNumber, binary);
    assert joined == ['['] + Joined(printed, ',') + [']'];
    assert joined[1..|joined| - 1] == Joined(printed, ',');
    read := ReadList(joined, fromBinary);
    RoundTripParts(args, isNumber, binary, fromBinary);
  }

  /** Each part reads back as the value that was printed. */
  ghost predicate ReadsBack(parts: seq<string>, args: seq<string>, fromBinary: string -> string) {
    |parts| == |args| && forall i | 0 <= i < |args| :: ProcessQuoted(parts[i], '\"', '\'', fromBinary) == Ok(args[i])
  }

  /** The same, of the text in between: the printed list splits into parts that read back. */
  lemma RoundTripParts(args: seq<string>, isNumber: string -> bool, binary: string -> string, fromBinary: string -> string)
    requires args != [] && forall arg | arg in args :: Printable(arg)
    ensures ReadsBack(Parts(Trim(Joined(Printed(args, '\"', '\'', true, isNumber, binary), ',')), ','), args, fromBinary)
  {
    var printed := Printed(args, '\"', '\'', true, isNumber, binary);
    PrintedAreTokens(args, isNumber, binary, fromBinary);
    JoinedSplits(printed, args, fromBinary);
    TrimTidy(Joined(printed, ','));
    forall i | 0 <= i < |args|
      ensures ProcessQuoted(printed[i], '\"', '\'', fromBinary) == Ok(args[i])
    {
      assert Token(printed[i], args[i], fromBinary);
    }
  }
}
