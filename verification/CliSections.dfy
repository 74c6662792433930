/** The section events of a configuration file: reading section headers emits "++" and "--" items,
    and a close that turns out to be premature is taken back. */
module CliSections {

  type Path = seq<string>

  const OPEN := "++"
  const CLOSE := "--"

  datatype Item = Item(parents: Path, name: string, inputs: seq<string>)

  predicate IsValue(item: Item) {
    item.name != OPEN && item.name != CLOSE
  }

  // ---- what items mean ----

  /** A reader of the items keeps the path of the sections that are open, innermost last. */
  datatype State = Bad | At(path: Path)

  /** An open item must add one segment to the open path; a close item must name exactly the open
      path, and takes its last segment off; any other item must lie inside the open section. */
  function Step(s: State, item: Item): State {
    if s.Bad? then Bad
    else if item.name == OPEN then
      if |item.parents| == |s.path| + 1 && s.path <= item.parents then At(item.parents) else Bad
    else if item.name == CLOSE then
      if item.parents == s.path != [] then At(s.path[..|s.path| - 1]) else Bad
    else
      if s.path <= item.parents then s else Bad
  }

  function Replay(s: State, items: seq<Item>): State
    decreases |items|
  {
    if items == [] then s else Replay(Step(s, items[0]), items[1..])
  }

  lemma {:induction false} ReplayAppend(s: State, a: seq<Item>, b: seq<Item>)
    ensures Replay(s, a + b) == Replay(Replay(s, a), b)
    decreases |a|
  {
    hide Step;
    if a == [] {
      assert a + b == b;
    } else {
      assert (a + b)[1..] == a[1..] + b;
      ReplayAppend(Step(s, a[0]), a[1..], b);
    }
  }

  lemma ReplayOne(s: State, item: Item)
    ensures Replay(s, [item]) == Step(s, item)
  {
    hide Step;
    assert [item][1..] == [];
  }

  /** What is broken stays broken. */
  lemma {:induction false} BadForever(items: seq<Item>)
    ensures Replay(Bad, items) == Bad
  {
    if items != [] {
      BadForever(items[1..]);
    }
  }

  datatype Entry = Entry(parents: Path, name: string, input: string)

  function EntriesOf(item: Item): seq<Entry> {
    if IsValue(item) then seq(|item.inputs|, i requires 0 <= i < |item.inputs| => Entry(item.parents, item.name, item.inputs[i]))
    else []
  }

  /** The inputs of the value items, in order, each with its section and name. */
  function Entries(items: seq<Item>): seq<Entry> {
    if items == [] then [] else EntriesOf(items[0]) + Entries(items[1..])
  }

  lemma {:induction false} EntriesAppend(a: seq<Item>, b: seq<Item>)
    ensures Entries(a + b) == Entries(a) + Entries(b)
  {
    hide EntriesOf;
    if a == [] {
      assert a + b == b;
    } else {
      assert (a + b)[1..] == a[1..] + b;
      EntriesAppend(a[1..], b);
    }
  }

  lemma EntriesOne(item: Item)
    ensures Entries([item]) == EntriesOf(item)
  {
    hide EntriesOf;
    assert [item][1..] == [];
  }

  // ---- moving from one section to another ----

  /** The closes of a section and of those around it, innermost first, down to `depth` segments. */
  function Closes(path: Path, depth: nat): seq<Item>
    requires depth <= |path|
  {
    seq(|path| - depth, i requires 0 <= i < |path| - depth => Item(path[..|path| - i], CLOSE, []))
  }

  /** The opens of the sections around `path` of more than `depth` segments, up to `path` itself. */
  function Opens(path: Path, depth: nat): seq<Item>
    requires depth <= |path|
  {
    seq(|path| - depth, i requires 0 <= i < |path| - depth => Item(path[..depth + i + 1], OPEN, []))
  }

  /** The length of the longest path that both begin with. */
  function Common(a: Path, b: Path): (c: nat)
    ensures c <= |a| && c <= |b| && a[..c] == b[..c]
    ensures c < |a| && c < |b| ==> a[c] != b[c]
  {
    if a == [] || b == [] || a[0] != b[0] then 0
    else
      var c := Common(a[1..], b[1..]);
      assert a[..c + 1] == [a[0]] + a[1..][..c] && b[..c + 1] == [b[0]] + b[1..][..c];
      c + 1
  }

  lemma CommonAgrees(a: Path, b: Path)
    ensures forall k | 0 <= k < Common(a, b) :: a[k] == b[k]
  {
    assert forall k | 0 <= k < Common(a, b) :: a[..Common(a, b)][k] == a[k] && b[..Common(a, b)][k] == b[k];
  }

  /** How many sections stay open on the way from p to q: the ones that p lies in, or is, and that q
      lies in. The section q itself is always opened anew. */
  function Shared(p: Path, q: Path): (c: nat)
    requires q != []
    ensures c <= |p| && c < |q| && p[..c] == q[..c]
  {
    Common(p, q[..|q| - 1])
  }

  /** From the section p to the section q: closes what the two do not share, and opens what is missing. */
  function Move(p: Path, q: Path): seq<Item>
    requires q != []
  {
    Closes(p, Shared(p, q)) + Opens(q, Shared(p, q))
  }

  lemma ClosesPush(path: Path, depth: nat)
    requires 0 < depth <= |path|
    ensures Closes(path, depth - 1) == Closes(path, depth) + [Item(path[..depth], CLOSE, [])]
  {
  }

  lemma OpensPush(path: Path, depth: nat, n: nat)
    requires depth <= n < |path|
    ensures Opens(path[..n + 1], depth) == Opens(path[..n], depth) + [Item(path[..n + 1], OPEN, [])]
  {
    assert forall k | 0 <= k <= n :: path[..n + 1][..k] == path[..n][..k];
    assert path[..n + 1][..n + 1] == path[..n + 1];
  }

  lemma {:induction false} ClosesReplay(path: Path, depth: nat)
    requires depth <= |path|
    ensures Replay(At(path), Closes(path, depth)) == At(path[..depth])
    decreases |path| - depth
  {
    if depth < |path| {
      ClosesPush(path, depth + 1);
      ClosesReplay(path, depth + 1);
      var last := Item(path[..depth + 1], CLOSE, []);
      assert path[..depth + 1][..depth] == path[..depth];
      ReplayAppend(At(path), Closes(path, depth + 1), [last]);
      ReplayOne(At(path[..depth + 1]), last);
    } else {
      assert path[..depth] == path;
    }
  }

  lemma {:induction false} OpensReplay(path: Path, depth: nat)
    requires depth <= |path|
    ensures Replay(At(path[..depth]), Opens(path, depth)) == At(path)
    decreases |path|
  {
    if depth < |path| {
      var n := |path| - 1;
      assert path[..n + 1] == path && path[..n][..depth] == path[..depth];
      OpensPush(path, depth, n);
      OpensReplay(path[..n], depth);
      var last := Item(path, OPEN, []);
      ReplayAppend(At(path[..depth]), Opens(path[..n], depth), [last]);
      ReplayOne(At(path[..n]), last);
    } else {
      assert path[..depth] == path;
    }
  }

  /** A move leaves exactly the new section open. */
  lemma MoveReplays(p: Path, q: Path)
    requires q != []
    ensures Replay(At(p), Move(p, q)) == At(q)
  {
    hide Closes, Opens, Shared;
    var c := Shared(p, q);
    ClosesReplay(p, c);
    OpensReplay(q, c);
    ReplayAppend(At(p), Closes(p, c), Opens(q, c));
  }

  /** What each item of a move is: no section that p lies in or is, and that q lies in, is closed or
      opened; every other section that p lies in or is is closed, and every other one that q lies in
      or is is opened. */
  lemma MoveTouches(p: Path, q: Path, r: Path)
    requires q != []
    ensures Item(r, CLOSE, []) in Move(p, q) <==> r != [] && r <= p && !(r < q)
    ensures Item(r, OPEN, []) in Move(p, q) <==> r != [] && r <= q && !(r < q && r <= p)
  {
    var c := Shared(p, q);
    var all := Move(p, q);
    SharedIsLongest(p, q, r);
    if r != [] && r <= p && !(r < q) {
      assert Closes(p, c)[|p| - |r|] == Item(r, CLOSE, []);
      assert all[|p| - |r|] == Item(r, CLOSE, []);
    }
    if r != [] && r <= q && !(r < q && r <= p) {
      assert Opens(q, c)[|r| - c - 1] == Item(r, OPEN, []);
      assert all[|p| - c + (|r| - c - 1)] == Item(r, OPEN, []);
    }
  }

  lemma SharedIsLongest(p: Path, q: Path, r: Path)
    requires q != []
    ensures r <= p && r < q <==> |r| <= Shared(p, q) && r == p[..|r|]
  {
    var c := Shared(p, q);
    CommonAgrees(p, q[..|q| - 1]);
    assert |r| > c && r <= p ==> p[c] == r[c];
    assert |r| > c && r < q ==> c < |q| - 1 && q[c] == r[c];
    assert |r| <= c ==> p[..|r|] == q[..|r|];
  }

  /** How many opens and closes lie between two sections. */
  function Distance(a: Path, b: Path): int {
    |a| + |b| - 2 * Common(a, b)
  }

  /** Opening or closing one section comes one section closer at most. */
  lemma StepDistance(s: State, item: Item, goal: Path)
    requires s.At? && Step(s, item).At?
    ensures Distance(Step(s, item).path, goal) >= Distance(s.path, goal) - 1
    ensures IsValue(item) ==> Step(s, item) == s
  {
    var a, b := s.path, Step(s, item).path;
    if item.name == OPEN {
      CommonChild(a, b, goal);
    } else if item.name == CLOSE {
      CommonChild(b, a, goal);
    }
  }

  lemma CommonChild(a: Path, b: Path, goal: Path)
    requires a <= b && |b| == |a| + 1
    ensures Common(a, goal) <= Common(b, goal) <= Common(a, goal) + 1
    ensures Common(b, goal) == |b| || Common(b, goal) == Common(a, goal)
  {
    CommonAgrees(a, goal);
    CommonAgrees(b, goal);
    assert forall k | 0 <= k < |a| :: a[k] == b[k];
  }

  lemma {:induction false} FarAway(s: State, items: seq<Item>, goal: Path)
    requires s.At? && Replay(s, items) == At(goal)
    ensures |items| >= Distance(s.path, goal)
    decreases |items|
  {
    hide Step, Distance;
    if items == [] {
      NoDistance(goal);
    } else {
      if Step(s, items[0]).Bad? { BadForever(items[1..]); }
      FarAway(Step(s, items[0]), items[1..], goal);
      StepDistance(s, items[0], goal);
    }
  }

  lemma NoDistance(a: Path)
    ensures Distance(a, a) == 0
  {
  }

  /** No other properly nested items that end by opening q are fewer. */
  lemma MoveIsShortest(p: Path, q: Path, items: seq<Item>)
    requires q != [] && items != [] && items[|items| - 1].name == OPEN && Replay(At(p), items) == At(q)
    ensures |items| >= |Move(p, q)|
  {
    var front, last := items[..|items| - 1], items[|items| - 1];
    assert front + [last] == items;
    ReplayAppend(At(p), front, [last]);
    ReplayOne(Replay(At(p), front), last);
    OpenedFrom(Replay(At(p), front), last, q);
    hide Replay, Step, Common, Closes, Opens;
    FarAway(At(p), front, q[..|q| - 1]);
    MoveLength(p, q);
  }

  lemma OpenedFrom(s: State, item: Item, q: Path)
    requires item.name == OPEN && Step(s, item) == At(q)
    ensures q != [] && s == At(q[..|q| - 1])
  {
  }

  lemma MoveLength(p: Path, q: Path)
    requires q != []
    ensures |Move(p, q)| == Distance(p, q[..|q| - 1]) + 1
  {
    hide Common;
  }

  // ---- values that follow each other ----

  /** A value is merged with the last item if that has the same name and section. */
  function Join(items: seq<Item>, item: Item): seq<Item> {
    if IsValue(item) && items != [] && items[|items| - 1].name == item.name && items[|items| - 1].parents == item.parents then
      var back := items[|items| - 1];
      items[..|items| - 1] + [back.(inputs := back.inputs + item.inputs)]
    else items + [item]
  }

  function JoinAll(so: seq<Item>, items: seq<Item>): seq<Item>
    decreases |items|
  {
    if items == [] then so else JoinAll(Join(so, items[0]), items[1..])
  }

  lemma {:induction false} JoinAllAppend(so: seq<Item>, a: seq<Item>, b: seq<Item>)
    ensures JoinAll(so, a + b) == JoinAll(JoinAll(so, a), b)
    decreases |a|
  {
    hide Join;
    if a == [] {
      assert a + b == b;
    } else {
      assert (a + b)[1..] == a[1..] + b;
      JoinAllAppend(Join(so, a[0]), a[1..], b);
    }
  }

  /** Opens and closes are never merged. */
  lemma {:induction false} EventsJoin(so: seq<Item>, events: seq<Item>)
    requires forall e | e in events :: !IsValue(e)
    ensures JoinAll(so, events) == so + events
    decreases |events|
  {
    if events != [] {
      assert events[0] in events && forall e | e in events[1..] :: e in events;
      EventsJoin(so + [events[0]], events[1..]);
      assert so + [events[0]] + events[1..] == so + events;
    }
  }

  /** A step does not look at the inputs, and a value changes nothing. */
  lemma StepTwice(s: State, a: Item, b: Item, both: Item)
    requires IsValue(a) && a.name == b.name == both.name && a.parents == b.parents == both.parents
    ensures Step(s, both) == Step(Step(s, a), b)
  {
  }

  lemma MoreInputs(back: Item, inputs: seq<string>)
    requires IsValue(back)
    ensures EntriesOf(back.(inputs := back.inputs + inputs)) == EntriesOf(back) + EntriesOf(back.(inputs := inputs))
  {
  }

  /** Merging a value changes neither the nesting nor the inputs that are read. */
  lemma JoinMeans(s: State, items: seq<Item>, item: Item)
    ensures Replay(s, Join(items, item)) == Step(Replay(s, items), item)
    ensures Entries(Join(items, item)) == Entries(items) + EntriesOf(item)
  {
    if Join(items, item) == items + [item] {
      ReplayAppend(s, items, [item]);
      ReplayOne(Replay(s, items), item);
      EntriesAppend(items, [item]);
      EntriesOne(item);
    } else {
      MergeMeans(s, items, item);
    }
  }

  lemma MergeMeans(s: State, items: seq<Item>, item: Item)
    requires IsValue(item) && items != [] && items[|items| - 1].name == item.name && items[|items| - 1].parents == item.parents
    ensures Replay(s, Join(items, item)) == Step(Replay(s, items), item)
    ensures Entries(Join(items, item)) == Entries(items) + EntriesOf(item)
  {
    var front, back := items[..|items| - 1], items[|items| - 1];
    var both := back.(inputs := back.inputs + item.inputs);
    assert items == front + [back];
    assert item == back.(inputs := item.inputs);
    MoreInputs(back, item.inputs);
    StepTwice(Replay(s, front), back, item, both);
    assert Join(items, item) == front + [both];
    hide Step, Replay, Entries, EntriesOf, Join, IsValue;
    ReplayAppend(s, front, [both]);
    ReplayAppend(s, front, [back]);
    ReplayOne(Replay(s, front), both);
    ReplayOne(Replay(s, front), back);
    EntriesAppend(front, [both]);
    EntriesAppend(front, [back]);
    EntriesOne(both);
    EntriesOne(back);
    Regroup(Entries(front), EntriesOf(back), EntriesOf(item));
  }

  lemma Regroup(a: seq<Entry>, b: seq<Entry>, c: seq<Entry>)
    ensures a + b + c == a + (b + c)
  {
  }

  lemma {:induction false} JoinAllMeans(s: State, so: seq<Item>, items: seq<Item>)
    ensures Replay(s, JoinAll(so, items)) == Replay(Replay(s, so), items)
    ensures Entries(JoinAll(so, items)) == Entries(so) + Entries(items)
    decreases |items|
  {
    hide Step, Join, EntriesOf;
    if items != [] {
      JoinMeans(s, so, items[0]);
      JoinAllMeans(s, Join(so, items[0]), items[1..]);
      Regroup(Entries(so), EntriesOf(items[0]), Entries(items[1..]));
    }
  }

  /** No two neighbouring values have the same name and section. */
  ghost predicate Apart(items: seq<Item>) {
    forall i | 0 < i < |items| && IsValue(items[i]) ::
      items[i].name != items[i - 1].name || items[i].parents != items[i - 1].parents
  }

  /** Merging leaves no such neighbours. */
  lemma {:induction false} JoinedApart(so: seq<Item>, items: seq<Item>)
    requires Apart(so)
    ensures Apart(JoinAll(so, items))
    decreases |items|
  {
    if items != [] {
      JoinedApart(Join(so, items[0]), items[1..]);
    }
  }

  // ---- the items of a file ----

  /** What a line contributes: a section header, by its path; a header of the default section; or a
      value, by its name, the sections its name adds, and its inputs. */
  datatype Line = Header(path: Path) | DefaultHeader | Value(sub: Path, name: string, inputs: seq<string>)

  ghost predicate GoodLine(line: Line) {
    && (line.Header? ==> line.path != [])
    && (line.Value? ==> line.name != OPEN && line.name != CLOSE)
  }

  ghost predicate GoodLines(lines: seq<Line>) {
    forall l | l in lines :: GoodLine(l)
  }

  lemma FirstIsGood(lines: seq<Line>)
    requires GoodLines(lines) && lines != []
    ensures GoodLine(lines[0]) && GoodLines(lines[1..])
  {
    assert lines[0] in lines;
  }

  /** The close of a section that is left for the default one, until it is known what follows. */
  function Pending(closed: Path): seq<Item> {
    if closed == [] then [] else [Item(closed, CLOSE, [])]
  }

  /** The items of the rest of a file, values not yet merged. In the section `current`, a header is a
      move from there, and the end of the file closes everything. In the default section, a header is
      a move from the section `closed` that was left; if a value or the end follows instead, that
      section alone is closed. Values nested too deep are skipped. */
  ghost function FileItems(lines: seq<Line>, current: Path, closed: Path, layers: nat): seq<Item>
    requires GoodLines(lines)
  {
    if lines == [] then
      if current != [] then Closes(current, 0) else Pending(closed)
    else
      FirstIsGood(lines);
      match lines[0]
      case Header(path) =>
        Move(if current != [] then current else closed, path) + FileItems(lines[1..], path, [], layers)
      case DefaultHeader =>
        FileItems(lines[1..], [], if current != [] then current else closed, layers)
      case Value(sub, name, inputs) =>
        if |current + sub| > layers then FileItems(lines[1..], current, closed, layers)
        else
          (if current != [] then [] else Pending(closed)) + [Item(current + sub, name, inputs)]
            + FileItems(lines[1..], current, if current != [] then closed else [], layers)
  }

  /** The inputs of a file, each with its section and name; values nested too deep are skipped. */
  function FileEntries(lines: seq<Line>, current: Path, layers: nat): seq<Entry> {
    if lines == [] then []
    else match lines[0]
      case Header(path) => FileEntries(lines[1..], path, layers)
      case DefaultHeader => FileEntries(lines[1..], [], layers)
      case Value(sub, name, inputs) =>
        (if |current + sub| > layers then [] else EntriesOf(Item(current + sub, name, inputs)))
          + FileEntries(lines[1..], current, layers)
  }

  /** The inputs of a file, however deep. */
  function AllEntries(lines: seq<Line>, current: Path): seq<Entry> {
    if lines == [] then []
    else match lines[0]
      case Header(path) => AllEntries(lines[1..], path)
      case DefaultHeader => AllEntries(lines[1..], [])
      case Value(sub, name, inputs) => EntriesOf(Item(current + sub, name, inputs)) + AllEntries(lines[1..], current)
  }

  function Shallow(entries: seq<Entry>, layers: nat): seq<Entry> {
    if entries == [] then []
    else (if |entries[0].parents| <= layers then [entries[0]] else []) + Shallow(entries[1..], layers)
  }

  lemma {:induction false} ShallowAppend(a: seq<Entry>, b: seq<Entry>, layers: nat)
    ensures Shallow(a + b, layers) == Shallow(a, layers) + Shallow(b, layers)
  {
    if a == [] {
      assert a + b == b;
    } else {
      var first := if |a[0].parents| <= layers then [a[0]] else [];
      assert (a + b)[1..] == a[1..] + b && (a + b)[0] == a[0];
      assert Shallow(a, layers) == first + Shallow(a[1..], layers);
      assert Shallow(a + b, layers) == first + Shallow(a[1..] + b, layers);
      hide Shallow;
      ShallowAppend(a[1..], b, layers);
      Regroup(first, Shallow(a[1..], layers), Shallow(b, layers));
    }
  }

  lemma {:induction false} OneDepth(entries: seq<Entry>, depth: nat, layers: nat)
    requires forall e | e in entries :: |e.parents| == depth
    ensures Shallow(entries, layers) == if depth <= layers then entries else []
  {
    if entries != [] {
      assert entries[0] in entries && forall e | e in entries[1..] :: e in entries;
      OneDepth(entries[1..], depth, layers);
    }
  }

  /** What is skipped is exactly what lies in more than `layers` sections. */
  lemma {:induction false} FileSkipsDeep(lines: seq<Line>, current: Path, layers: nat)
    ensures FileEntries(lines, current, layers) == Shallow(AllEntries(lines, current), layers)
  {
    hide EntriesOf;
    if lines != [] {
      match lines[0]
      case Header(path) => FileSkipsDeep(lines[1..], path, layers);
      case DefaultHeader => FileSkipsDeep(lines[1..], [], layers);
      case Value(sub, name, inputs) =>
        var here := EntriesOf(Item(current + sub, name, inputs));
        FileSkipsDeep(lines[1..], current, layers);
        EntriesDepth(Item(current + sub, name, inputs));
        OneDepth(here, |current + sub|, layers);
        ShallowAppend(here, AllEntries(lines[1..], current), layers);
    }
  }

  lemma EntriesDepth(item: Item)
    ensures forall e | e in EntriesOf(item) :: |e.parents| == |item.parents|
  {
  }

  /** No file returns to the default section from a nested one (`pending`) without going on to
      another section before the next value that is kept, or the end. */
  predicate ReturnsCleanly(lines: seq<Line>, current: Path, pending: bool, layers: nat) {
    if lines == [] then !pending
    else match lines[0]
      case Header(path) => ReturnsCleanly(lines[1..], path, false, layers)
      case DefaultHeader => ReturnsCleanly(lines[1..], [], pending || |current| > 1, layers)
      case Value(sub, _, _) =>
        (!pending || |current + sub| > layers) && ReturnsCleanly(lines[1..], current, pending, layers)
  }

  lemma MoveHasNoValues(p: Path, q: Path)
    requires q != []
    ensures forall e | e in Move(p, q) :: !IsValue(e)
  {
  }

  lemma EndItems(word: seq<Item>, current: Path, closed: Path, layers: nat)
    ensures JoinAll(word, FileItems([], current, closed, layers))
         == word + if current != [] then Closes(current, 0) else Pending(closed)
  {
    EventsJoin(word, if current != [] then Closes(current, 0) else Pending(closed));
  }

  /** What one line adds to the items so far. */
  lemma NextItems(word: seq<Item>, line: Line, rest: seq<Line>, current: Path, closed: Path, layers: nat)
    requires GoodLine(line) && GoodLines(rest)
    ensures GoodLines([line] + rest)
    ensures var all := JoinAll(word, FileItems([line] + rest, current, closed, layers));
      var at := if current != [] then current else closed;
      && (line.Header? ==> line.path != [] && all == JoinAll(word + Move(at, line.path), FileItems(rest, line.path, [], layers)))
      && (line.DefaultHeader? ==> all == JoinAll(word, FileItems(rest, [], at, layers)))
      && (line.Value? && |current + line.sub| > layers ==> all == JoinAll(word, FileItems(rest, current, closed, layers)))
      && (line.Value? && |current + line.sub| <= layers ==>
            all == JoinAll(Join(if current != [] then word else word + Pending(closed),
                                Item(current + line.sub, line.name, line.inputs)),
                           FileItems(rest, current, if current != [] then closed else [], layers)))
  {
    hide Join, Move;
    assert ([line] + rest)[1..] == rest;
    var at := if current != [] then current else closed;
    match line
    case Header(path) =>
      MoveHasNoValues(at, path);
      EventsJoin(word, Move(at, path));
      JoinAllAppend(word, Move(at, path), FileItems(rest, path, [], layers));
    case DefaultHeader =>
    case Value(sub, name, inputs) =>
      if |current + sub| <= layers {
        var before, value := if current != [] then [] else Pending(closed), Item(current + sub, name, inputs);
        EventsJoin(word, before);
        JoinAllAppend(word, before + [value], FileItems(rest, current, if current != [] then closed else [], layers));
        JoinAllAppend(word, before, [value]);
        JoinOne(word + before, value);
      }
  }

  lemma JoinOne(word: seq<Item>, item: Item)
    ensures JoinAll(word, [item]) == Join(word, item)
  {
    hide Join;
    assert [item][1..] == [];
  }

  ghost predicate EndsWithClose(items: seq<Item>) {
    items != [] && items[|items| - 1].name == CLOSE
  }

  lemma LastClose(word: seq<Item>, path: Path, depth: nat)
    requires depth < |path|
    ensures var items := word + Closes(path, depth);
      EndsWithClose(items) && items[|items| - 1] == Item(path[..depth + 1], CLOSE, [])
  {
  }

  lemma PendingIs(word: seq<Item>, path: Path)
    ensures path != [] ==> Pending(path) == Closes(path, |path| - 1) && EndsWithClose(word + Pending(path))
    ensures path == [] ==> Pending(path) == Closes(path, 0) == []
  {
    assert path[..|path|] == path;
  }

  /** Comparing the first n + 1 segments is enough. */
  lemma SharedIs(path: Path, parents: Path, n: nat, common: nat)
    requires n < |path| && n + 1 < |parents| && (n + 1 == |path| || n + 2 == |parents|)
    requires common <= n + 1 && path[..common] == parents[..common]
    requires common <= n ==> path[common] != parents[common]
    ensures common == Shared(path, parents)
  {
    var c, front := Shared(path, parents), parents[..|parents| - 1];
    CommonAgrees(path, front);
    assert c < |path| && c < |front| ==> path[c] != front[c];
    assert forall k | 0 <= k < common :: path[..common][k] == path[k] && parents[..common][k] == parents[k];
  }

  lemma OpensLast(parents: Path, c: nat)
    requires c < |parents|
    ensures Opens(parents, c) == Opens(parents[..|parents| - 1], c) + [Item(parents, OPEN, [])]
    ensures |parents| == 1 ==> Opens(parents[..|parents| - 1], c) == []
  {
    assert parents[..|parents|] == parents;
    OpensPush(parents, c, |parents| - 1);
  }

  lemma MoveParts(word: seq<Item>, path: Path, parents: Path, c: nat)
    requires parents != [] && c == Shared(path, parents)
    ensures word + Closes(path, c) + Opens(parents[..|parents| - 1], c) + [Item(parents, OPEN, [])] == word + Move(path, parents)
  {
    OpensLast(parents, c);
  }

  /** Once something is broken, or a section is open that no header knows of, the rest of the file
      cannot make the items properly nested again. */
  lemma {:induction false} StuckItems(lines: seq<Line>, s: State, layers: nat)
    requires GoodLines(lines) && (s.At? ==> s.path != [])
    ensures Replay(s, FileItems(lines, [], [], layers)) != At([])
  {
    var items := FileItems(lines, [], [], layers);
    if lines != [] { FirstIsGood(lines); }
    if s.Bad? {
      BadForever(items);
    } else if lines != [] {
      match lines[0]
      case Header(path) =>
        var first := Item(path[..1], OPEN, []);
        assert Opens(path, 0)[0] == first && items[0] == first;
        BadForever(items[1..]);
      case DefaultHeader =>
        StuckItems(lines[1..], s, layers);
      case Value(sub, name, inputs) =>
        if |[] + sub| > layers {
          StuckItems(lines[1..], s, layers);
        } else {
          assert items[1..] == FileItems(lines[1..], [], [], layers);
          StuckItems(lines[1..], Step(s, items[0]), layers);
        }
    }
  }

  lemma PendingReplay(closed: Path)
    ensures Replay(At(closed), Pending(closed)) == At(if closed == [] then [] else closed[..|closed| - 1])
  {
    if closed != [] { ReplayOne(At(closed), Item(closed, CLOSE, [])); }
  }

  /** The items of a file are properly nested, with everything closed at the end, exactly when the
      file never leaves a nested section dangling by returning to the default one. */
  lemma {:induction false} FileIsNested(lines: seq<Line>, current: Path, closed: Path, layers: nat)
    requires GoodLines(lines)
    ensures Replay(At(if current != [] then current else closed), FileItems(lines, current, closed, layers)) == At([]) <==>
            ReturnsCleanly(lines, current, current == [] && |closed| > 1, layers)
    decreases |lines|, 1
  {
    hide Step, Replay, Move, Closes, Opens, GoodLine;
    var at := if current != [] then current else closed;
    if lines == [] {
      if current != [] {
        ClosesReplay(current, 0);
      } else {
        PendingReplay(closed);
      }
    } else {
      FirstIsGood(lines);
      GoodHeader(lines[0]);
      match lines[0]
      case Header(path) =>
        MoveReplays(at, path);
        ReplayAppend(At(at), Move(at, path), FileItems(lines[1..], path, [], layers));
        FileIsNested(lines[1..], path, [], layers);
      case DefaultHeader =>
        FileIsNested(lines[1..], [], at, layers);
      case Value(sub, name, inputs) =>
        if |current + sub| > layers {
          FileIsNested(lines[1..], current, closed, layers);
        } else {
          ValueIsNested(lines, current, closed, layers);
        }
    }
  }

  lemma GoodHeader(line: Line)
    requires GoodLine(line)
    ensures line.Header? ==> line.path != []
    ensures line.Value? ==> line.name != OPEN && line.name != CLOSE
  {
  }

  lemma {:induction false} ValueIsNested(lines: seq<Line>, current: Path, closed: Path, layers: nat)
    requires GoodLines(lines) && lines != [] && lines[0].Value? && |current + lines[0].sub| <= layers
    ensures Replay(At(if current != [] then current else closed), FileItems(lines, current, closed, layers)) == At([]) <==>
            (current != [] || |closed| <= 1) && ReturnsCleanly(lines[1..], current, false, layers)
    decreases |lines|, 0
  {
    var value := Item(current + lines[0].sub, lines[0].name, lines[0].inputs);
    var rest := FileItems(lines[1..], current, if current != [] then closed else [], layers);
    FirstIsGood(lines);
    GoodHeader(lines[0]);
    var at := if current != [] then current else closed;
    var before := if current != [] then [] else Pending(closed);
    var inside := if current != [] then current else if closed == [] then [] else closed[..|closed| - 1];
    PendingReplay(closed);
    assert Replay(At(at), before) == At(inside);
    var s := Step(At(inside), value);
    assert s.At? ==> s.path == inside;
    assert inside <= current ==> s == At(inside);
    ReplayAppend(At(at), before + [value], rest);
    ReplayAppend(At(at), before, [value]);
    ReplayOne(At(inside), value);
    if inside <= current {
      FileIsNested(lines[1..], current, if current != [] then closed else [], layers);
    } else {
      StuckItems(lines[1..], s, layers);
    }
  }

  lemma {:induction false} EventsHaveNoEntries(events: seq<Item>)
    requires forall e | e in events :: !IsValue(e)
    ensures Entries(events) == []
  {
    if events != [] {
      assert events[0] in events && forall e | e in events[1..] :: e in events;
      EventsHaveNoEntries(events[1..]);
    }
  }

  /** Every input keeps its place, its name and its section. */
  lemma {:induction false} FileKeepsEntries(lines: seq<Line>, current: Path, closed: Path, layers: nat)
    requires GoodLines(lines)
    ensures Entries(FileItems(lines, current, closed, layers)) == FileEntries(lines, current, layers)
  {
    hide Entries, EntriesOf;
    var at := if current != [] then current else closed;
    EventsHaveNoEntries(Pending(closed));
    if lines == [] {
      EventsHaveNoEntries(Closes(current, 0));
      EventsHaveNoEntries([]);
    } else {
      FirstIsGood(lines);
      match lines[0]
      case Header(path) =>
        var rest := FileItems(lines[1..], path, [], layers);
        EventsHaveNoEntries(Move(at, path));
        EntriesAppend(Move(at, path), rest);
        FileKeepsEntries(lines[1..], path, [], layers);
      case DefaultHeader =>
        FileKeepsEntries(lines[1..], [], at, layers);
      case Value(sub, name, inputs) =>
        if |current + sub| > layers {
          FileKeepsEntries(lines[1..], current, closed, layers);
        } else {
          var next := if current != [] then closed else [];
          var before, value := if current != [] then [] else Pending(closed), Item(current + sub, name, inputs);
          EventsHaveNoEntries(before);
          EntriesAppend(before + [value], FileItems(lines[1..], current, next, layers));
          EntriesAppend(before, [value]);
          EntriesOne(value);
          FileKeepsEntries(lines[1..], current, next, layers);
        }
    }
  }

  class ConfigReader {
    var output: seq<Item>
    var current: Path
    const maximumLayers: nat

    /** In the default section: the section whose close is the last item, if any. */
    ghost var closed: Path

    constructor (layers: nat)
      ensures output == [] && current == [] && maximumLayers == layers && closed == []
    {
      output := [];
      current := [];
      maximumLayers := layers;
      closed := [];
    }

    /** The items are `word`, and the close of the section that was left for the default one. */
    ghost predicate Holds(word: seq<Item>)
      reads this
    {
      if current != [] then output == word
      else output == word + Pending(closed) && (closed == [] ==> !EndsWithClose(word))
    }

    /** Emits closes until the section closed last has at most `size` segments. */
    method CloseDownTo(size: nat, ghost word: seq<Item>, ghost path: Path, ghost n: nat)
      requires 0 < size && n < |path| && output == word + Closes(path, n)
      modifies this`output
      ensures output == word + Closes(path, if n < size then n else size - 1)
    {
      ghost var depth: nat := n;
      LastClose(word, path, depth);
      while |output[|output| - 1].parents| > size
        invariant depth < |path| && output == word + Closes(path, depth)
        invariant EndsWithClose(output) && output[|output| - 1] == Item(path[..depth + 1], CLOSE, [])
        invariant depth <= n && (depth < n ==> depth + 1 >= size)
        decreases depth
      {
        var back := output[|output| - 1].parents;
        ClosesPush(path, depth);
        assert back[..|back| - 1] == path[..depth];
        output := output + [Item(back[..|back| - 1], CLOSE, [])];
        depth := depth - 1;
        LastClose(word, path, depth);
      }
    }

    /** Emits opens for the paths `parents[..from + 1]` up to the one that leaves out the last segment. */
    method OpenParents(parents: Path, from: nat)
      requires from < |parents|
      modifies this`output
      ensures output == old(output) + Opens(parents[..|parents| - 1], from)
    {
      assert Opens(parents[..from], from) == [];
      for ii := from to |parents| - 1
        invariant output == old(output) + Opens(parents[..ii], from)
      {
        OpensPush(parents, from, ii);
        output := output + [Item(parents[..ii + 1], OPEN, [])];
      }
    }

    /** After a close of a section no longer than the parents of the new one: takes it back if the new
        section lies inside that section, or else closes everything the two do not share. */
    method LeaveTo(parents: Path, ghost word: seq<Item>, ghost path: Path, ghost n: nat) returns (common: nat)
      requires n < |path| && n + 1 < |parents| && output == word + Closes(path, n) && (n + 1 == |path| || n + 2 == |parents|)
      modifies this`output
      ensures common == Shared(path, parents) && output == word + Closes(path, common)
    {
      LastClose(word, path, n);
      ClosesPush(path, n + 1);
      var back := output[|output| - 1].parents;
      var mpair := if |back| < |parents| - 1 then |back| else |parents| - 1;
      common := 0;
      while common < mpair && back[common] == parents[common]
        invariant common <= mpair && back[..common] == parents[..common]
      {
        common := common + 1;
      }
      SharedIs(path, parents, n, common);
      if common == mpair {
        output := output[..|output| - 1];
        assert output == word + Closes(path, n + 1);
      } else {
        CloseDownTo(common + 1, word, path, n);
      }
    }

    /** `checkParentSegments`: after the previous section was closed, moves on to the section
        `parents`: closes what it does not lie in, takes the last close back if the new section
        lies inside the section it closed, and opens what is missing. */
    method CheckParentSegments(parents: Path, ghost word: seq<Item>, ghost path: Path)
      requires parents != [] && output == word + Pending(path) && (path == [] ==> !EndsWithClose(word))
      modifies this`output
      ensures output == word + Move(path, parents)
    {
      hide Closes, Opens, Shared;
      PendingIs(word, path);
      var c: nat := 0;
      if output != [] && output[|output| - 1].name == CLOSE {
        var msize := if |parents| > 1 then |parents| else 2;
        CloseDownTo(msize - 1, word, path, |path| - 1);
        if |parents| > 1 {
          c := LeaveTo(parents, word, path, if |path| - 1 < msize - 1 then |path| - 1 else msize - 2);
          OpenParents(parents, c);
        }
      } else if |parents| > 1 {
        OpenParents(parents, 0);
      }
      OpensLast(parents, c);
      assert output == word + Closes(path, c) + Opens(parents[..|parents| - 1], c);
      output := output + [Item(parents, OPEN, [])];
      assert output == word + Move(path, parents) by {
        MoveParts(word, path, parents, c);
      }
    }

    /** A section header. */
    method ReadHeader(path: Path, ghost word: seq<Item>)
      requires path != [] && Holds(word)
      modifies this
      ensures current == path && closed == []
      ensures Holds(word + Move(if old(current) != [] then old(current) else old(closed), path))
    {
      ghost var from := if current != [] then current else closed;
      if current != [] {
        output := output + [Item(current, CLOSE, [])];
      }
      current := path;
      CheckParentSegments(current, word, from);
      closed := [];
    }

    /** A header of the default section. */
    method ReadDefaultHeader(ghost word: seq<Item>)
      requires Holds(word)
      modifies this
      ensures current == [] && closed == (if old(current) != [] then old(current) else old(closed)) && Holds(word)
    {
      if current != [] {
        output := output + [Item(current, CLOSE, [])];
        closed := current;
      }
      current := [];
    }

    /** A value; it is merged with the last item if that has the same name and section. */
    method ReadValue(sub: Path, name: string, inputs: seq<string>, ghost word: seq<Item>)
      requires name != OPEN && name != CLOSE && Holds(word)
      modifies this
      ensures current == old(current)
      ensures |current + sub| > maximumLayers ==> closed == old(closed) && Holds(word)
      ensures |current + sub| <= maximumLayers ==> closed == (if current != [] then old(closed) else [])
      ensures |current + sub| <= maximumLayers ==>
        Holds(Join(if current != [] then word else word + Pending(old(closed)), Item(current + sub, name, inputs)))
    {
      var parents := current + sub;
      if |parents| > maximumLayers {
        return;
      }
      if output != [] && name == output[|output| - 1].name && parents == output[|output| - 1].parents {
        var back := output[|output| - 1];
        output := output[..|output| - 1] + [back.(inputs := back.inputs + inputs)];
      } else {
        output := output + [Item(parents, name, inputs)];
      }
      if current == [] {
        closed := [];
      }
    }

    method ReadLine(line: Line, ghost rest: seq<Line>, ghost word: seq<Item>) returns (ghost next: seq<Item>)
      requires GoodLine(line) && GoodLines(rest) && Holds(word)
      modifies this
      ensures Holds(next)
      ensures GoodLines([line] + rest) && JoinAll(next, FileItems(rest, current, closed, maximumLayers))
        == JoinAll(word, FileItems([line] + rest, old(current), old(closed), maximumLayers))
    {
      NextItems(word, line, rest, current, closed, maximumLayers);
      hide JoinAll, FileItems, Join, Move, GoodLines, Pending, Holds, Closes;
      match line {
        case Header(path) =>
          next := word + Move(if current != [] then current else closed, path);
          ReadHeader(path, word);
        case DefaultHeader =>
          next := word;
          ReadDefaultHeader(word);
        case Value(sub, name, inputs) =>
          next := if |current + sub| > maximumLayers then word
                  else Join(if current != [] then word else word + Pending(closed), Item(current + sub, name, inputs));
          ReadValue(sub, name, inputs, word);
      }
    }

    /** The end of the file. */
    method Finish(ghost word: seq<Item>)
      requires Holds(word)
      modifies this`output
      ensures output == word + if current != [] then Closes(current, 0) else Pending(closed)
    {
      if current != [] {
        PendingIs(word, current);
        output := output + [Item(current, CLOSE, [])];
        CloseDownTo(1, word, current, |current| - 1);
      }
    }

    /** Reads the lines of a file. The items are those of the shortest moves from section to section,
        and the values, neighbouring ones merged. They are properly nested, with everything closed at
        the end, exactly when the file never leaves a nested section dangling by returning to the
        default one; a file without default headers never does. In any case every input keeps its
        place, its name and its section. */
    method ReadLines(lines: seq<Line>)
      requires output == [] && current == [] && closed == [] && GoodLines(lines)
      modifies this
      ensures output == JoinAll([], FileItems(lines, [], [], maximumLayers))
      ensures Replay(At([]), output) == At([]) <==> ReturnsCleanly(lines, [], false, maximumLayers)
      ensures Entries(output) == FileEntries(lines, [], maximumLayers)
    {
      ghost var word: seq<Item>, all := [], FileItems(lines, [], [], maximumLayers);
      assert lines[0..] == lines;
      for i := 0 to |lines|
        invariant Holds(word) && GoodLines(lines[i..])
        invariant JoinAll(word, FileItems(lines[i..], current, closed, maximumLayers)) == JoinAll([], all)
      {
        FirstIsGood(lines[i..]);
        assert lines[i..] == [lines[i]] + lines[i + 1..];
        word := ReadLine(lines[i], lines[i + 1..], word);
      }
      assert lines[|lines|..] == [];
      EndItems(word, current, closed, maximumLayers);
      Finish(word);
      JoinAllMeans(At([]), [], all);
      FileIsNested(lines, [], [], maximumLayers);
      FileKeepsEntries(lines, [], [], maximumLayers);
    }
  }

  /** Leaving [a.b] for the default section at the end of the file leaves [a] open. */
  method ReadDanglingSection(layers: nat) returns (reader: ConfigReader)
    ensures fresh(reader) && reader.output == Opens(["a", "b"], 0) + [Item(["a", "b"], CLOSE, [])]
    ensures Replay(At([]), reader.output) == At(["a"])
    ensures !ReturnsCleanly([Header(["a", "b"]), DefaultHeader], [], false, layers)
  {
    var path := ["a", "b"];
    DanglingSection(path, layers);
    reader := new ConfigReader(layers);
    reader.ReadHeader(path, []);
    reader.ReadDefaultHeader(Move([], path));
    reader.Finish(Move([], path));
    MoveReplays([], path);
    PendingReplay(path);
    ReplayAppend(At([]), Move([], path), Pending(path));
    assert path[..1] == ["a"];
  }

  lemma DanglingSection(path: Path, layers: nat)
    requires |path| > 1
    ensures !ReturnsCleanly([Header(path), DefaultHeader], [], false, layers)
  {
    var lines := [Header(path), DefaultHeader];
    assert lines[1..] == [DefaultHeader] && [DefaultHeader][1..] == [];
    assert !ReturnsCleanly([], [], true, layers);
    assert !ReturnsCleanly([DefaultHeader], path, false, layers);
  }

  /** Two sections of one: the outer one stays open on the way from the first to the second. */
  method ReadSiblings() returns (reader: ConfigReader)
    ensures fresh(reader) && reader.output ==
      [Item(["a"], OPEN, []), Item(["a", "b"], OPEN, []), Item(["a", "b"], CLOSE, []),
       Item(["a", "c"], OPEN, []), Item(["a", "c"], CLOSE, []), Item(["a"], CLOSE, [])]
  {
    var b, c := ["a", "b"], ["a", "c"];
    SiblingMoves(b, c);
    hide Move, Closes;
    reader := new ConfigReader(2);
    reader.ReadHeader(b, []);
    reader.ReadHeader(c, Move([], b));
    reader.Finish(Move([], b) + Move(b, c));
  }

  lemma SiblingMoves(b: Path, c: Path)
    requires b == ["a", "b"] && c == ["a", "c"]
    ensures Move([], b) == [Item(["a"], OPEN, []), Item(b, OPEN, [])]
    ensures Move(b, c) == [Item(b, CLOSE, []), Item(c, OPEN, [])]
    ensures Closes(c, 0) == [Item(c, CLOSE, []), Item(["a"], CLOSE, [])]
  {
    assert b[..1] == c[..1] == ["a"] && b[..2] == b && c[..2] == c;
    assert b[1..] == ["b"] && ["a"][1..] == [] && Common(b, ["a"]) == 1;
  }

  /** A file without default headers never leaves a section dangling. */
  lemma {:induction false} WithoutDefaultHeaders(lines: seq<Line>, current: Path, layers: nat)
    requires DefaultHeader !in lines
    ensures ReturnsCleanly(lines, current, false, layers)
  {
    if lines != [] {
      assert lines[0] in lines && DefaultHeader !in lines[1..];
      match lines[0]
      case Header(path) => WithoutDefaultHeaders(lines[1..], path, layers);
      case Value(_, _, _) => WithoutDefaultHeaders(lines[1..], current, layers);
    }
  }
}
