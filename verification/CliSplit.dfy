/** Where quoted and bracketed text ends. */
module CliSplit {
  import opened CliText

  /** The kinds of quotes and brackets, by the position of the opening character in the source's
      list of them: 0 is a string quote, 1 and 2 are literal quotes, 3 to 6 are brackets; 7 is none. */
  function OpenerKind(c: char): nat {
    match c
    case '\"' => 0
    case '\'' => 1
    case '`' => 2
    case '[' => 3
    case '(' => 4
    case '<' => 5
    case '{' => 6
    case _ => 7
  }

  function CloserKind(c: char): nat {
    match c
    case '\"' => 0
    case '\'' => 1
    case '`' => 2
    case ']' => 3
    case ')' => 4
    case '>' => 5
    case '}' => 6
    case _ => 7
  }

  function Opener(kind: nat): char
    requires kind < 7
  {
    if kind == 0 then '\"' else if kind == 1 then '\'' else if kind == 2 then '`'
    else if kind == 3 then '[' else if kind == 4 then '(' else if kind == 5 then '<' else '{'
  }

  function Closer(kind: nat): char
    requires kind < 7
  {
    if kind == 0 then '\"' else if kind == 1 then '\'' else if kind == 2 then '`'
    else if kind == 3 then ']' else if kind == 4 then ')' else if kind == 5 then '>' else '}'
  }

  /** The first unescaped `q` from `loc` on; it may run past the end. */
  function StringEnd(s: string, loc: nat, q: char): (end: nat)
    ensures end >= loc
    decreases |s| - loc
  {
    if loc >= |s| || s[loc] == q then loc
    else StringEnd(s, if s[loc] == '\\' then loc + 2 else loc + 1, q)
  }

  /** The first `q` from `loc` on, or the end of the text. */
  function LiteralEnd(s: string, loc: nat, q: char): (end: nat)
    ensures loc <= |s| ==> loc <= end <= |s|
    ensures loc > |s| ==> end == |s|
    decreases |s| - loc
  {
    if loc >= |s| then |s| else if s[loc] == q then loc else LiteralEnd(s, loc + 1, q)
  }

  /** One step of the search for a closing bracket: where to go on, and what the brackets that are
      still open wait for, innermost last. Quoted text is passed over in one step. */
  function BracketStep(s: string, loc: nat, closures: string): (next: (nat, string))
    requires loc < |s| && closures != ""
    ensures next.0 > loc
  {
    var c := s[loc];
    var left := if c == closures[|closures| - 1] then closures[..|closures| - 1] else closures;
    var kind := OpenerKind(c);
    if left == "" then (loc + 1, "")
    else if kind == 0 then (StringEnd(s, loc + 1, c) + 1, left)
    else if kind <= 2 then (LiteralEnd(s, loc + 1, c) + 1, left)
    else if kind <= 6 then (loc + 1, left + [Closer(kind)])
    else (loc + 1, left)
  }

  /** The place, from `loc` on, where the last of the open brackets is closed. */
  function BracketEnd(s: string, loc: nat, closures: string): nat
    requires closures != ""
    decreases |s| - loc
  {
    if loc >= |s| then |s|
    else
      var next := BracketStep(s, loc, closures);
      if next.1 == "" then loc else BracketEnd(s, next.0, next.1)
  }

  /** `close_sequence`. */
  function SequenceEnd(s: string, start: nat, closure: char): nat {
    var kind := CloserKind(closure);
    if kind == 0 then StringEnd(s, start + 1, closure)
    else if kind <= 2 || kind == 7 then LiteralEnd(s, start + 1, closure)
    else BracketEnd(s, start + 1, [closure])
  }

  method CloseStringQuote(s: string, start: nat, q: char) returns (loc: nat)
    ensures loc == StringEnd(s, start + 1, q)
  {
    loc := start + 1;
    while loc < |s|
      invariant StringEnd(s, loc, q) == StringEnd(s, start + 1, q)
      decreases |s| - loc
    {
      if s[loc] == q {
        break;
      }
      if s[loc] == '\\' {
        loc := loc + 1;
      }
      loc := loc + 1;
    }
  }

  method CloseLiteralQuote(s: string, start: nat, q: char) returns (loc: nat)
    ensures loc == LiteralEnd(s, start + 1, q)
  {
    loc := start + 1;
    while loc < |s| && s[loc] != q
      invariant LiteralEnd(s, loc, q) == LiteralEnd(s, start + 1, q)
      decreases |s| - loc
    {
      loc := loc + 1;
    }
    if loc > |s| {
      loc := |s|;
    }
  }

  lemma BracketEndStep(s: string, loc: nat, closures: string)
    requires loc < |s| && closures != ""
    ensures var next := BracketStep(s, loc, closures);
      BracketEnd(s, loc, closures) == if next.1 == "" then loc else BracketEnd(s, next.0, next.1)
  {
    hide BracketStep;
  }

  lemma BracketEndPast(s: string, closures: string)
    requires closures != ""
    ensures forall loc: nat | loc >= |s| :: BracketEnd(s, loc, closures) == |s|
  {
  }

  method CloseSequence(s: string, start: nat, closure: char) returns (loc: nat)
    ensures loc == SequenceEnd(s, start, closure)
  {
    hide StringEnd, LiteralEnd, Closer, BracketEnd;
    var kind := CloserKind(closure);
    if kind == 0 {
      loc := CloseStringQuote(s, start, closure);
      return;
    } else if kind <= 2 || kind == 7 {
      loc := CloseLiteralQuote(s, start, closure);
      return;
    }
    var closures := [closure];
    loc := start + 1;
    while loc < |s|
      invariant closures != ""
      invariant BracketEnd(s, loc, closures) == BracketEnd(s, start + 1, [closure])
      decreases |s| - loc
    {
      BracketEndStep(s, loc, closures);
      ghost var next := BracketStep(s, loc, closures);
      if s[loc] == closures[|closures| - 1] {
        closures := closures[..|closures| - 1];
        if closures == "" {
          return;
        }
      }
      kind := OpenerKind(s[loc]);
      if kind == 0 {
        loc := CloseStringQuote(s, loc, s[loc]);
      } else if kind <= 2 {
        loc := CloseLiteralQuote(s, loc, s[loc]);
      } else if kind <= 6 {
        closures := closures + [Closer(kind)];
      }
      loc := loc + 1;
      assert next == (loc, closures);
    }
    if loc > |s| {
      loc := |s|;
    }
    BracketEndPast(s, closures);
  }

  // ---- brackets are matched ----

  /** Text in which brackets are balanced: plain characters, quoted text, and bracketed groups. */
  datatype Text = End | Plain(c: char, rest: Text) | Quoted(q: char, body: string, rest: Text) | Group(kind: nat, inner: Text, rest: Text)

  function Spell(t: Text): string {
    match t
    case End => ""
    case Plain(c, rest) => [c] + Spell(rest)
    case Quoted(q, body, rest) => [q] + body + [q] + Spell(rest)
    case Group(kind, inner, rest) =>
      if 3 <= kind <= 6 then [Opener(kind)] + Spell(inner) + [Closer(kind)] + Spell(rest) else Spell(rest)
  }

  /** A literal quote does not contain its own quote, and a string quote holds escaped text. */
  ghost predicate Quotable(q: char, body: string) {
    ((q == '\'' || q == '`') && q !in body) || (q == '\"' && exists raw :: body == Escaped(raw))
  }

  /** Plain characters are neither brackets nor quotes, and quoted text ends where it seems to. */
  ghost predicate Balanced(t: Text) {
    match t
    case End => true
    case Plain(c, rest) => OpenerKind(c) == 7 && CloserKind(c) == 7 && Balanced(rest)
    case Quoted(q, body, rest) => Quotable(q, body) && Balanced(rest)
    case Group(kind, inner, rest) => 3 <= kind <= 6 && Balanced(inner) && Balanced(rest)
  }

  lemma {:induction false} StringEndInQuotes(s: string, loc: nat, body: string, raw: string, rest: string)
    requires loc <= |s| && s[loc..] == body + ['\"'] + rest && body == Escaped(raw)
    ensures StringEnd(s, loc, '\"') == loc + |body|
    decreases raw
  {
    if raw == "" {
      assert s[loc] == s[loc..][0] == '\"';
    } else {
      var tail := Escaped(raw[1..]);
      var n := if Escapable(raw[0]) then 2 else 1;
      assert body[n..] == tail;
      assert s[loc] == s[loc..][0] == body[0];
      assert s[loc + n..] == s[loc..][n..] == tail + ['\"'] + rest;
      StringEndInQuotes(s, loc + n, tail, raw[1..], rest);
    }
  }

  lemma {:induction false} LiteralEndInQuotes(s: string, loc: nat, body: string, q: char, rest: string)
    requires loc <= |s| && s[loc..] == body + [q] + rest && q !in body
    ensures LiteralEnd(s, loc, q) == loc + |body|
    decreases |body|
  {
    assert s[loc] == s[loc..][0];
    if body != "" {
      assert body[0] in body;
      assert s[loc + 1..] == s[loc..][1..] == body[1..] + [q] + rest;
      LiteralEndInQuotes(s, loc + 1, body[1..], q, rest);
    }
  }

  ghost predicate Waiting(closures: string) {
    closures != "" && forall c | c in closures :: 3 <= CloserKind(c) <= 6
  }

  lemma Drop(s: string, loc: nat, a: string, b: string)
    requires loc <= |s| && s[loc..] == a + b
    ensures loc + |a| <= |s| && s[loc + |a|..] == b
    ensures a != "" ==> s[loc] == a[0]
  {
    assert s[loc + |a|..] == s[loc..][|a|..];
    assert a != "" ==> s[loc] == s[loc..][0];
  }

  lemma PlainIsPassedOver(s: string, loc: nat, closures: string)
    requires loc < |s| && Waiting(closures) && OpenerKind(s[loc]) == 7 && CloserKind(s[loc]) == 7
    ensures BracketStep(s, loc, closures) == (loc + 1, closures)
  {
    assert closures[|closures| - 1] in closures;
  }

  lemma QuotedIsPassedOver(s: string, loc: nat, q: char, body: string, rest: string, closures: string)
    requires loc <= |s| && s[loc..] == [q] + body + [q] + rest && Waiting(closures)
    requires Quotable(q, body)
    ensures loc < |s| && BracketStep(s, loc, closures) == (loc + |body| + 2, closures)
  {
    assert closures[|closures| - 1] in closures;
    assert s[loc..] == [q] + (body + [q] + rest);
    Drop(s, loc, [q], body + [q] + rest);
    if q == '\"' {
      var raw :| body == Escaped(raw);
      StringEndInQuotes(s, loc + 1, body, raw, rest);
    } else {
      LiteralEndInQuotes(s, loc + 1, body, q, rest);
    }
  }

  lemma GroupOpens(s: string, loc: nat, kind: nat, closures: string)
    requires loc < |s| && Waiting(closures) && 3 <= kind <= 6 && s[loc] == Opener(kind)
    ensures BracketStep(s, loc, closures) == (loc + 1, closures + [Closer(kind)])
  {
    assert closures[|closures| - 1] in closures;
  }

  lemma GroupCloses(s: string, loc: nat, kind: nat, closures: string)
    requires loc < |s| && Waiting(closures) && 3 <= kind <= 6 && s[loc] == Closer(kind)
    ensures BracketStep(s, loc, closures + [Closer(kind)]) == (loc + 1, closures)
  {
    var inside := closures + [Closer(kind)];
    assert inside[..|inside| - 1] == closures;
  }

  lemma GroupSpelling(kind: nat, inner: Text, more: Text, rest: string)
    requires 3 <= kind <= 6
    ensures Spell(Group(kind, inner, more)) + rest
         == [Opener(kind)] + (Spell(inner) + ([Closer(kind)] + (Spell(more) + rest)))
    ensures |Spell(Group(kind, inner, more))| == 2 + |Spell(inner)| + |Spell(more)|
  {
    Regroup([Opener(kind)], Spell(inner), [Closer(kind)], Spell(more), rest);
  }

  lemma RegroupThree(a: string, b: string, c: string)
    ensures a + b + c == a + (b + c)
  {
  }

  lemma Regroup(a: string, b: string, c: string, d: string, e: string)
    ensures a + b + c + d + e == a + (b + (c + (d + e)))
  {
    assert a + b + c + d + e == a + b + c + (d + e);
    assert a + b + c + (d + e) == a + b + (c + (d + e));
  }

  /** A search that is at `loc` with these open brackets will be at `end` with the same ones. */
  ghost predicate PassesOver(s: string, loc: nat, end: nat, closures: string)
    requires closures != ""
  {
    BracketEnd(s, loc, closures) == BracketEnd(s, end, closures)
  }

  lemma GroupIsPassedOver(s: string, loc: nat, kind: nat, n: nat, end: nat, closures: string)
    requires loc < n < |s| && Waiting(closures) && 3 <= kind <= 6
    requires s[loc] == Opener(kind) && s[n] == Closer(kind)
    requires PassesOver(s, loc + 1, n, closures + [Closer(kind)]) && PassesOver(s, n + 1, end, closures)
    ensures PassesOver(s, loc, end, closures)
  {
    GroupOpens(s, loc, kind, closures);
    GroupCloses(s, n, kind, closures);
  }

  lemma StepIsPassedOver(s: string, loc: nat, next: nat, end: nat, closures: string)
    requires loc < |s| && closures != "" && BracketStep(s, loc, closures) == (next, closures)
    requires PassesOver(s, next, end, closures)
    ensures PassesOver(s, loc, end, closures)
  {
  }

  /** Balanced text inside brackets is passed over, whatever is open around it. */
  lemma {:induction false} BalancedIsPassedOver(s: string, loc: nat, t: Text, rest: string, closures: string, end: nat)
    requires Balanced(t) && Waiting(closures)
    requires loc <= |s| && s[loc..] == Spell(t) + rest && end == loc + |Spell(t)|
    ensures PassesOver(s, loc, end, closures)
    decreases t, 1
  {
    match t
    case End =>
    case Plain(c, more) => PlainTextIsPassedOver(s, loc, c, more, rest, closures, end);
    case Quoted(q, body, more) => QuotedTextIsPassedOver(s, loc, q, body, more, rest, closures, end);
    case Group(kind, inner, more) => GroupTextIsPassedOver(s, loc, kind, inner, more, rest, closures, end);
  }

  lemma {:induction false} PlainTextIsPassedOver(s: string, loc: nat, c: char, more: Text, rest: string, closures: string, end: nat)
    requires Balanced(Plain(c, more)) && Waiting(closures)
    requires loc <= |s| && s[loc..] == [c] + Spell(more) + rest && end == loc + 1 + |Spell(more)|
    ensures PassesOver(s, loc, end, closures)
    decreases Plain(c, more), 0
  {
    assert s[loc..] == [c] + (Spell(more) + rest);
    Drop(s, loc, [c], Spell(more) + rest);
    BalancedIsPassedOver(s, loc + 1, more, rest, closures, end);
    PlainIsPassedOver(s, loc, closures);
    StepIsPassedOver(s, loc, loc + 1, end, closures);
  }

  lemma {:induction false} QuotedTextIsPassedOver(s: string, loc: nat, q: char, body: string, more: Text, rest: string,
                                                  closures: string, end: nat)
    requires Balanced(Quoted(q, body, more)) && Waiting(closures)
    requires loc <= |s| && s[loc..] == Spell(Quoted(q, body, more)) + rest
    requires end == loc + 2 + |body| + |Spell(more)|
    ensures PassesOver(s, loc, end, closures)
    decreases Quoted(q, body, more), 0
  {
    var quoted := [q] + body + [q];
    assert Spell(Quoted(q, body, more)) == quoted + Spell(more);
    hide Spell, Quotable, Waiting, BracketStep, PassesOver;
    RegroupThree(quoted, Spell(more), rest);
    Drop(s, loc, quoted, Spell(more) + rest);
    BalancedIsPassedOver(s, loc + |quoted|, more, rest, closures, end);
    QuotedIsPassedOver(s, loc, q, body, Spell(more) + rest, closures);
    StepIsPassedOver(s, loc, loc + |quoted|, end, closures);
  }

  lemma {:induction false} GroupTextIsPassedOver(s: string, loc: nat, kind: nat, inner: Text, more: Text, rest: string,
                                                 closures: string, end: nat)
    requires Balanced(Group(kind, inner, more)) && Waiting(closures)
    requires loc <= |s| && s[loc..] == Spell(Group(kind, inner, more)) + rest
    requires end == loc + |Spell(Group(kind, inner, more))|
    ensures PassesOver(s, loc, end, closures)
    decreases Group(kind, inner, more), 0
  {
    assert Balanced(inner) && Balanced(more) && 3 <= kind <= 6;
    hide Spell, Balanced, PassesOver, BracketStep, BracketEnd, Waiting;
    var n := loc + 1 + |Spell(inner)|;
    GroupLayout(s, loc, kind, inner, more, rest, n);
    WaitsForMore(closures, kind);
    assert PassesOver(s, n + 1, end, closures) by {
      BalancedIsPassedOver(s, n + 1, more, rest, closures, end);
    }
    BalancedIsPassedOver(s, loc + 1, inner, [Closer(kind)] + (Spell(more) + rest), closures + [Closer(kind)], n);
    GroupIsPassedOver(s, loc, kind, n, end, closures);
  }

  lemma WaitsForMore(closures: string, kind: nat)
    requires Waiting(closures) && 3 <= kind <= 6
    ensures closures != [] && Waiting(closures + [Closer(kind)])
  {
  }

  lemma GroupLayout(s: string, loc: nat, kind: nat, inner: Text, more: Text, rest: string, n: nat)
    requires 3 <= kind <= 6 && loc <= |s| && s[loc..] == Spell(Group(kind, inner, more)) + rest
    requires n == loc + 1 + |Spell(inner)|
    ensures n < |s| && s[loc] == Opener(kind) && s[n] == Closer(kind)
    ensures s[loc + 1..] == Spell(inner) + ([Closer(kind)] + (Spell(more) + rest))
    ensures s[n + 1..] == Spell(more) + rest
    ensures loc + |Spell(Group(kind, inner, more))| == n + 1 + |Spell(more)|
  {
    GroupSpelling(kind, inner, more, rest);
    var after := [Closer(kind)] + (Spell(more) + rest);
    Drop(s, loc, [Opener(kind)], Spell(inner) + after);
    Drop(s, loc + 1, Spell(inner), after);
    Drop(s, n, [Closer(kind)], Spell(more) + rest);
  }

  /** So `close_sequence` finds the bracket that matches an opening one, past nested groups, quoted
      brackets and escaped quotes. */
  lemma SequenceEndMatches(kind: nat, t: Text, rest: string)
    requires 3 <= kind <= 6 && Balanced(t)
    ensures SequenceEnd([Opener(kind)] + Spell(t) + [Closer(kind)] + rest, 0, Closer(kind)) == 1 + |Spell(t)|
  {
    var text := Spell(t);
    var s := [Opener(kind)] + text + [Closer(kind)] + rest;
    var n := 1 + |text|;
    BracketedLayout(s, kind, text, rest);
    ClosesAtOnce(s, n, kind);
    assert PassesOver(s, 1, n, [Closer(kind)]) by {
      hide Spell, Balanced, PassesOver;
      BalancedIsPassedOver(s, 1, t, [Closer(kind)] + rest, [Closer(kind)], n);
    }
    assert CloserKind(Closer(kind)) == kind;
    hide Spell, Balanced, BracketStep, BracketEnd, Opener, Closer, CloserKind;
  }

  lemma BracketedLayout(s: string, kind: nat, text: string, rest: string)
    requires kind < 7 && s == [Opener(kind)] + text + [Closer(kind)] + rest
    ensures 1 + |text| < |s| && s[1 + |text|] == Closer(kind) && s[1..] == text + ([Closer(kind)] + rest)
  {
    hide Opener, Closer;
    var after := [Closer(kind)] + rest;
    assert s == [Opener(kind)] + (text + after) && s[0..] == s;
    Drop(s, 0, [Opener(kind)], text + after);
    Drop(s, 1, text, after);
  }

  lemma ClosesAtOnce(s: string, n: nat, kind: nat)
    requires 3 <= kind <= 6 && n < |s| && s[n] == Closer(kind)
    ensures BracketEnd(s, n, [Closer(kind)]) == n
  {
  }
}
