/** Splitting a line into parts: words up to a delimiter, and quoted or bracketed text, kept whole. */
module CliSplitUp {
  import opened CliText
  import opened CliSplit

  predicate Separates(c: char, delimiter: char) {
    if delimiter == '\0' then IsSpace(c) else c == delimiter
  }

  function FindSeparator(s: string, loc: nat, delimiter: char): (i: nat)
    requires loc <= |s|
    ensures loc <= i <= |s|
    decreases |s| - loc
  {
    if loc == |s| || Separates(s[loc], delimiter) then loc else FindSeparator(s, loc + 1, delimiter)
  }

  /** The first part of trimmed text, and what is left after the separator that follows it. */
  function FirstPart(s: string, delimiter: char): (r: (string, string))
    requires s != ""
    ensures |r.1| < |s|
  {
    var kind := OpenerKind(s[0]);
    if kind < 7 then
      var end := SequenceEnd(s, 0, Closer(kind));
      if end >= |s| then (s, "") else (s[..end + 1], if end + 2 < |s| then s[end + 2..] else "")
    else
      var i := FindSeparator(s, 0, delimiter);
      if i == |s| then (s, "") else (s[..i], s[i + 1..])
  }

  function Parts(s: string, delimiter: char): seq<string>
    decreases |s|
  {
    if s == "" then [] else
      var (part, rest) := FirstPart(s, delimiter);
      [part] + Parts(Trim(rest), delimiter)
  }

  method TakeFirstPart(s: string, delimiter: char) returns (part: string, rest: string)
    requires s != ""
    ensures (part, rest) == FirstPart(s, delimiter)
  {
    var kind := OpenerKind(s[0]);
    rest := "";
    if kind < 7 {
      var end := CloseSequence(s, 0, Closer(kind));
      if end >= |s| {
        part := s;
      } else {
        part := s[..end + 1];
        if end + 2 < |s| {
          rest := s[end + 2..];
        }
      }
    } else {
      var i := 0;
      while i < |s| && !Separates(s[i], delimiter)
        invariant 0 <= i <= |s| && FindSeparator(s, i, delimiter) == FindSeparator(s, 0, delimiter)
      {
        i := i + 1;
      }
      if i < |s| {
        part := s[..i];
        rest := s[i + 1..];
      } else {
        part := s;
      }
    }
  }

  /** `split_up`. */
  method SplitUp(s0: string, delimiter: char) returns (output: seq<string>)
    ensures output == Parts(Trim(s0), delimiter)
  {
    var s := Trim(s0);
    output := [];
    while s != ""
      invariant output + Parts(s, delimiter) == Parts(Trim(s0), delimiter)
      decreases |s|
    {
      var part, rest := TakeFirstPart(s, delimiter);
      assert output + ([part] + Parts(Trim(rest), delimiter)) == output + [part] + Parts(Trim(rest), delimiter);
      output := output + [part];
      s := Trim(rest);
    }
  }

  // ---- pieces and gaps ----

  /** Text with no space at either end. */
  predicate Tidy(s: string) {
    s != "" && !IsSpace(s[0]) && !IsSpace(s[|s| - 1])
  }

  lemma TrimTidy(s: string)
    requires Tidy(s)
    ensures Trim(s) == s && Trim(" " + s) == s
  {
    assert (" " + s)[1..] == s;
  }

  predicate Spaces(s: string) {
    forall c | c in s :: IsSpace(c)
  }

  lemma {:induction false} TrimLeftSpaces(w: string, s: string)
    requires Spaces(w) && Tidy(s)
    ensures TrimLeft(w + s) == s
  {
    if w == "" {
      assert w + s == s;
    } else {
      assert (w + s)[1..] == w[1..] + s;
      TrimLeftSpaces(w[1..], s);
    }
  }

  lemma {:induction false} TrimRightSpaces(s: string, w: string)
    requires Spaces(w) && s != "" && !IsSpace(s[|s| - 1])
    ensures TrimRight(s + w) == s
    decreases |w|
  {
    if w == "" {
      assert s + w == s;
    } else {
      assert (s + w)[..|s + w| - 1] == s + w[..|w| - 1];
      TrimRightSpaces(s, w[..|w| - 1]);
    }
  }

  /** Trimming takes away the spaces around tidy text. */
  lemma TrimSpaces(v: string, s: string, w: string)
    requires Spaces(v) && Spaces(w) && Tidy(s)
    ensures Trim(v + s + w) == s
  {
    assert (v + s)[|v + s| - 1] == s[|s| - 1];
    TrimRightSpaces(v + s, w);
    TrimLeftSpaces(v, s);
  }

  /** What a line is made of: a word, a quote, or a group of brackets with balanced text inside. */
  datatype Piece = Bare(word: string) | Quote(q: char, body: string) | Bracketed(kind: nat, inner: Text)

  function PieceText(p: Piece): string {
    match p
    case Bare(word) => word
    case Quote(q, body) => [q] + body + [q]
    case Bracketed(kind, inner) =>
      if 3 <= kind <= 6 then [Opener(kind)] + Spell(inner) + [Closer(kind)] else Spell(inner)
  }

  ghost predicate GoodPiece(p: Piece, delimiter: char) {
    match p
    case Bare(word) => Tidy(word) && OpenerKind(word[0]) == 7 && forall c | c in word :: !Separates(c, delimiter)
    case Quote(q, body) => Quotable(q, body)
    case Bracketed(kind, inner) => 3 <= kind <= 6 && Balanced(inner)
  }

  ghost predicate IsPiece(t: string, delimiter: char) {
    exists p :: GoodPiece(p, delimiter) && PieceText(p) == t
  }

  /** What may stand between two pieces: one character, and any spaces. After a word the character is
      the delimiter; after a quote or a group it is taken for one, whatever it is. */
  predicate Gap(part: string, gap: string, delimiter: char) {
    && gap != "" && Spaces(gap[1..])
    && (part != "" && OpenerKind(part[0]) == 7 ==> Separates(gap[0], delimiter))
  }

  function Laid(parts: seq<string>, gaps: seq<string>): string
    requires parts != [] && |gaps| == |parts| - 1
  {
    if |parts| == 1 then parts[0] else parts[0] + gaps[0] + Laid(parts[1..], gaps[1..])
  }

  ghost predicate WellLaid(parts: seq<string>, gaps: seq<string>, delimiter: char) {
    && parts != [] && |gaps| == |parts| - 1
    && (forall i | 0 <= i < |parts| :: IsPiece(parts[i], delimiter))
    && (forall i | 0 <= i < |gaps| :: Gap(parts[i], gaps[i], delimiter))
  }

  // ---- the first piece ----

  lemma {:induction false} WordEnds(s: string, i: nat, t: string, rest: string, delimiter: char)
    requires s == t + rest && i <= |t| && (forall c | c in t :: !Separates(c, delimiter))
    requires rest == "" || Separates(rest[0], delimiter)
    ensures FindSeparator(s, i, delimiter) == |t|
    decreases |t| - i
  {
    if i < |t| {
      assert s[i] == t[i] && t[i] in t;
      WordEnds(s, i + 1, t, rest, delimiter);
    }
  }

  lemma BareIsFirst(word: string, rest: string, delimiter: char)
    requires GoodPiece(Bare(word), delimiter) && (rest == "" || Separates(rest[0], delimiter))
    ensures FirstPart(word + rest, delimiter) == (word, if rest == "" then "" else rest[1..])
  {
    var s := word + rest;
    WordEnds(s, 0, word, rest, delimiter);
    assert s[..|word|] == word && s[|word|..] == rest;
    assert rest == "" ==> s == word;
    assert rest != "" ==> s[|word| + 1..] == rest[1..];
  }

  /** Where text in brackets or quotes ends, its part ends too. */
  lemma WholeIsFirst(t: string, rest: string, delimiter: char)
    requires t != "" && OpenerKind(t[0]) < 7
    requires SequenceEnd(t + rest, 0, Closer(OpenerKind(t[0]))) == |t| - 1
    ensures FirstPart(t + rest, delimiter) == (t, if rest == "" then "" else rest[1..])
  {
    hide SequenceEnd;
    var s := t + rest;
    assert s[..|t|] == t && s[|t|..] == rest;
    assert rest != "" ==> s[|t| + 1..] == rest[1..];
  }

  lemma QuoteEnds(q: char, body: string, rest: string)
    requires Quotable(q, body)
    ensures OpenerKind(q) < 3 && Closer(OpenerKind(q)) == q
    ensures SequenceEnd([q] + body + [q] + rest, 0, q) == |body| + 1
  {
    var s := [q] + body + [q] + rest;
    assert s[1..] == body + [q] + rest;
    if q == '\"' {
      var raw :| body == Escaped(raw);
      StringEndInQuotes(s, 1, body, raw, rest);
    } else {
      LiteralEndInQuotes(s, 1, body, q, rest);
    }
  }

  /** A line that begins with a piece has that piece as its first part. */
  lemma PieceIsFirst(t: string, rest: string, delimiter: char)
    requires IsPiece(t, delimiter)
    requires OpenerKind(t[0]) == 7 ==> rest == "" || Separates(rest[0], delimiter)
    ensures FirstPart(t + rest, delimiter) == (t, if rest == "" then "" else rest[1..])
  {
    PieceIsTidy(t, delimiter);
    var p :| GoodPiece(p, delimiter) && PieceText(p) == t;
    match p
    case Bare(word) =>
      BareIsFirst(word, rest, delimiter);
    case Quote(q, body) =>
      QuoteEnds(q, body, rest);
      WholeIsFirst(t, rest, delimiter);
    case Bracketed(kind, inner) =>
      SequenceEndMatches(kind, inner, rest);
      BracketKind(kind);
      WholeIsFirst(t, rest, delimiter);
  }

  lemma BracketKind(kind: nat)
    requires 3 <= kind <= 6
    ensures OpenerKind(Opener(kind)) == kind && !IsSpace(Opener(kind)) && !IsSpace(Closer(kind))
  {
  }

  lemma PieceIsTidy(t: string, delimiter: char)
    requires IsPiece(t, delimiter)
    ensures Tidy(t)
  {
    var p :| GoodPiece(p, delimiter) && PieceText(p) == t;
    match p
    case Bare(word) =>
    case Quote(q, body) =>
    case Bracketed(kind, inner) => BracketKind(kind);
  }

  lemma {:induction false} BracketNeverEnds(s: string, loc: nat, closures: string, closer: char)
    requires closures != "" && closures[0] == closer && loc <= |s| && closer !in s[loc..]
    ensures BracketEnd(s, loc, closures) == |s|
    decreases |s| - loc
  {
    if loc < |s| {
      assert s[loc] == s[loc..][0];
      var next := BracketStep(s, loc, closures);
      assert next.1 != "" && next.1[0] == closer;
      if next.0 <= |s| {
        assert s[next.0..] == s[loc..][next.0 - loc..];
        BracketNeverEnds(s, next.0, next.1, closer);
      }
    }
  }

  /** An opening quote or bracket that is never closed takes all the text. */
  lemma UnclosedTakesAll(s: string, delimiter: char)
    requires s != "" && OpenerKind(s[0]) < 7 && Closer(OpenerKind(s[0])) !in s[1..]
    ensures FirstPart(s, delimiter) == (s, "")
  {
    var kind := OpenerKind(s[0]);
    assert CloserKind(Closer(kind)) == kind;
    if kind == 0 {
      StringNeverEnds(s, 1, '\"');
    } else if kind <= 2 {
      LiteralNeverEnds(s, 1, s[0]);
    } else {
      BracketNeverEnds(s, 1, [Closer(kind)], Closer(kind));
    }
  }

  lemma {:induction false} StringNeverEnds(s: string, loc: nat, q: char)
    requires loc > |s| || q !in s[loc..]
    ensures StringEnd(s, loc, q) >= |s|
    decreases |s| - loc
  {
    if loc < |s| {
      assert s[loc] == s[loc..][0];
      var next := if s[loc] == '\\' then loc + 2 else loc + 1;
      if next <= |s| { assert s[next..] == s[loc..][next - loc..]; }
      StringNeverEnds(s, next, q);
    }
  }

  lemma {:induction false} LiteralNeverEnds(s: string, loc: nat, q: char)
    requires loc <= |s| && q !in s[loc..]
    ensures LiteralEnd(s, loc, q) == |s|
    decreases |s| - loc
  {
    if loc < |s| {
      assert s[loc] == s[loc..][0] && s[loc + 1..] == s[loc..][1..];
      LiteralNeverEnds(s, loc + 1, q);
    }
  }

  // ---- all pieces ----

  lemma LastPiece(t: string, delimiter: char)
    requires IsPiece(t, delimiter)
    ensures Tidy(t) && Parts(t, delimiter) == [t]
  {
    PieceIsTidy(t, delimiter);
    PieceIsFirst(t, "", delimiter);
    assert t + "" == t && Trim("") == "";
  }

  lemma PieceSplitsOff(t: string, gap: string, more: string, delimiter: char)
    requires IsPiece(t, delimiter) && Gap(t, gap, delimiter) && Tidy(more)
    ensures Tidy(t + gap + more)
    ensures Parts(t + gap + more, delimiter) == [t] + Parts(more, delimiter)
  {
    PieceIsTidy(t, delimiter);
    GapLayout(t, gap, more);
    assert OpenerKind(t[0]) == 7 ==> Separates((gap + more)[0], delimiter);
    assert Spaces(gap[1..]);
    hide IsPiece, FirstPart, Trim, Gap, Parts, OpenerKind, Separates, Spaces;
    PieceIsFirst(t, gap + more, delimiter);
    PartsStep(t + (gap + more), t, (gap + more)[1..], delimiter);
    TrimSpaces(gap[1..], more, "");
  }

  lemma PartsStep(s: string, part: string, rest: string, delimiter: char)
    requires s != "" && FirstPart(s, delimiter) == (part, rest)
    ensures Parts(s, delimiter) == [part] + Parts(Trim(rest), delimiter)
  {
  }

  lemma GapLayout(t: string, gap: string, more: string)
    requires t != "" && gap != "" && more != ""
    ensures var s := t + gap + more;
      s == t + (gap + more) && s[0] == t[0] && s[|s| - 1] == more[|more| - 1]
    ensures (gap + more)[1..] == gap[1..] + more + "" && (gap + more)[0] == gap[0]
  {
  }

  lemma LaterPieces(parts: seq<string>, gaps: seq<string>, delimiter: char)
    requires WellLaid(parts, gaps, delimiter) && |parts| > 1
    ensures WellLaid(parts[1..], gaps[1..], delimiter) && IsPiece(parts[0], delimiter) && Gap(parts[0], gaps[0], delimiter)
  {
    hide IsPiece, Gap;
  }

  lemma {:induction false} SplitsIntoPieces(parts: seq<string>, gaps: seq<string>, delimiter: char)
    requires WellLaid(parts, gaps, delimiter)
    ensures Tidy(Laid(parts, gaps)) && Parts(Laid(parts, gaps), delimiter) == parts
  {
    if |parts| == 1 {
      LastPiece(parts[0], delimiter);
    } else {
      LaterPieces(parts, gaps, delimiter);
      hide IsPiece, Gap, Tidy, Parts, WellLaid;
      SplitsIntoPieces(parts[1..], gaps[1..], delimiter);
      PieceSplitsOff(parts[0], gaps[0], Laid(parts[1..], gaps[1..]), delimiter);
    }
  }

  /** A line of pieces with gaps between them, and any spaces around it, splits into exactly the pieces. */
  lemma LineSplits(parts: seq<string>, gaps: seq<string>, before: string, after: string, delimiter: char)
    requires WellLaid(parts, gaps, delimiter) && Spaces(before) && Spaces(after)
    ensures Parts(Trim(before + Laid(parts, gaps) + after), delimiter) == parts
  {
    SplitsIntoPieces(parts, gaps, delimiter);
    TrimSpaces(before, Laid(parts, gaps), after);
  }

  /** At a delimiter: words without it, each followed by it and by any spaces, come out as they are. */
  lemma WordsAtDelimiter(words: seq<string>, gaps: seq<string>, delimiter: char)
    requires delimiter != '\0' && words != [] && |gaps| == |words| - 1
    requires forall i | 0 <= i < |words| :: Tidy(words[i]) && OpenerKind(words[i][0]) == 7 && delimiter !in words[i]
    requires forall i | 0 <= i < |gaps| :: gaps[i] != "" && gaps[i][0] == delimiter && Spaces(gaps[i][1..])
    ensures Parts(Laid(words, gaps), delimiter) == words
  {
    forall i | 0 <= i < |words|
      ensures IsPiece(words[i], delimiter)
    {
      assert GoodPiece(Bare(words[i]), delimiter) && PieceText(Bare(words[i])) == words[i];
    }
    SplitsIntoPieces(words, gaps, delimiter);
  }

  const WHITE_SPACE := " \t\n\U{0B}\U{0C}\r"

  /** Without a delimiter: words come out that have any white space between them. */
  lemma WordsAtSpaces(words: seq<string>, gaps: seq<string>)
    requires words != [] && |gaps| == |words| - 1
    requires forall i | 0 <= i < |words| ::
      words[i] != "" && OpenerKind(words[i][0]) == 7 && forall c | c in words[i] :: c !in WHITE_SPACE
    requires forall i | 0 <= i < |gaps| :: gaps[i] != "" && forall c | c in gaps[i] :: c in WHITE_SPACE
    ensures Parts(Laid(words, gaps), '\0') == words
  {
    assert forall c :: IsSpace(c) <==> c in WHITE_SPACE;
    forall i | 0 <= i < |words|
      ensures IsPiece(words[i], '\0')
    {
      assert words[i][0] in words[i] && words[i][|words[i]| - 1] in words[i];
      assert GoodPiece(Bare(words[i]), '\0') && PieceText(Bare(words[i])) == words[i];
    }
    forall i | 0 <= i < |gaps|
      ensures Gap(words[i], gaps[i], '\0')
    {
      assert gaps[i][0] in gaps[i];
    }
    SplitsIntoPieces(words, gaps, '\0');
  }

  /** Each kind of brackets keeps balanced text whole, the delimiter inside it too. */
  lemma BracketsKeepWhole(inner: Text, rest: string, delimiter: char, open: char, close: char)
    requires Balanced(inner) && [open, close] in {"[]", "()", "<>", "{}"}
    ensures FirstPart([open] + Spell(inner) + [close] + rest, delimiter).0 == [open] + Spell(inner) + [close]
  {
    var kind := OpenerKind(open);
    assert [open, close] == [Opener(kind), Closer(kind)];
    assert [open, close][0] == Opener(kind) && [open, close][1] == Closer(kind);
    assert GoodPiece(Bracketed(kind, inner), delimiter);
    PieceIsFirst(PieceText(Bracketed(kind, inner)), rest, delimiter);
  }
}
