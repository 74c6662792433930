/** The table of transitions of one zone, as the operating system's database gives it: dropping
    transitions that change nothing, and looking up instants and local times. */
module TzTransitions {

  datatype Info = Info(offset: int, abbrev: string, isDst: bool)

  /** From `at` on, `info` is in force. */
  datatype Transition = Transition(at: int, info: Info)

  const DAY := 86400

  ghost predicate InOrder(s: seq<Transition>) {
    forall i, j | 0 <= i < j < |s| :: s[i].at <= s[j].at
  }

  /** What is in force at an instant: the last transition up to it decides, and before the first
      transition the first one does. */
  function InfoAt(s: seq<Transition>, t: int): Info
    requires s != []
  {
    var last := s[|s| - 1];
    if |s| == 1 || last.at <= t then last.info else InfoAt(s[..|s| - 1], t)
  }

  // ---- compaction ----

  /** The transitions that differ from the one before. */
  function Compacted(s: seq<Transition>): seq<Transition> {
    if |s| <= 1 then s
    else
      var front := Compacted(s[..|s| - 1]);
      if s[|s| - 1].info == s[|s| - 2].info then front else front + [s[|s| - 1]]
  }

  /** Compaction keeps the first transition and what the last one sets, and no two neighbours that
      are left agree. */
  lemma {:induction false} CompactedDiffers(s: seq<Transition>)
    requires s != []
    ensures var c := Compacted(s); c != [] && c[0] == s[0] && c[|c| - 1].info == s[|s| - 1].info
    ensures forall i | 0 < i < |Compacted(s)| :: Compacted(s)[i].info != Compacted(s)[i - 1].info
    ensures forall x | x in Compacted(s) :: x in s
  {
    if |s| > 1 {
      CompactedDiffers(s[..|s| - 1]);
    }
  }

  /** At every instant, the compacted table says what the whole one says. */
  lemma {:induction false} CompactedSaysTheSame(s: seq<Transition>, t: int)
    requires s != [] && InOrder(s)
    ensures Compacted(s) != [] && InfoAt(Compacted(s), t) == InfoAt(s, t)
  {
    CompactedDiffers(s);
    if |s| > 1 {
      var front := s[..|s| - 1];
      CompactedDiffers(front);
      CompactedSaysTheSame(front, t);
      if s[|s| - 1].info != s[|s| - 2].info {
        assert Compacted(s)[..|Compacted(s)| - 1] == Compacted(front);
      } else if s[|s| - 1].at <= t {
        assert front[|front| - 1].at <= t;
      }
    }
  }

  // ---- lookups ----

  datatype SysInfo = SysInfo(begin: int, end: int, offset: int, save: int, abbrev: string)

  const NOTHING := SysInfo(0, 0, 0, 0, "")

  datatype Answer = Unique | Nonexistent | Ambiguous

  datatype LocalInfo = LocalInfo(result: Answer, first: SysInfo, second: SysInfo)

  /** `load_sys_info`: the interval that ends at the i-th transition. At the first transition it is
      the one that ends at the second, stretched back to the start of the time line. */
  function Load(s: seq<Transition>, i: nat, minInstant: int, maxInstant: int): SysInfo
    requires s != [] && i <= |s|
  {
    var x := s[if i == 0 then 0 else i - 1].info;
    var end := if i == 0 then 1 else i;
    SysInfo(if i == 0 then minInstant else s[i - 1].at, if end == |s| then maxInstant else s[end].at,
            x.offset, if x.isDst then 1 else 0, x.abbrev)
  }

  /** Transitions more than two days apart that change the offset by at most a day. */
  ghost predicate Spaced(s: seq<Transition>) {
    forall i | 0 < i < |s| ::
      && s[i].at - s[i - 1].at > 2 * DAY
      && -DAY <= s[i].info.offset - s[i - 1].info.offset <= DAY
  }

  /** No transition comes up to `t`. */
  ghost predicate BeforeAll(s: seq<Transition>, t: int) {
    forall i | 0 <= i < |s| :: t < s[i].at
  }

  /** The last transition up to `t` is at `begin`; if there is none, that is the start of the time line. */
  ghost predicate BeginsAt(s: seq<Transition>, begin: int, t: int, minInstant: int) {
    if BeforeAll(s, t) then begin == minInstant
    else
      && begin <= t && (exists i | 0 <= i < |s| :: s[i].at == begin)
      && forall i | 0 <= i < |s| && s[i].at <= t :: s[i].at <= begin
  }

  /** The first transition after `t` is at `end`; if there is none, that is the end of the time line.
      Before the first transition, it is the second one that counts. */
  ghost predicate EndsAt(s: seq<Transition>, end: int, t: int, maxInstant: int)
    requires s != []
  {
    if BeforeAll(s, t) then end == if |s| == 1 then maxInstant else s[1].at
    else if forall i | 0 <= i < |s| :: s[i].at <= t then end == maxInstant
    else
      && t < end && (exists i | 0 <= i < |s| :: s[i].at == end)
      && forall i | 0 <= i < |s| && t < s[i].at :: end <= s[i].at
  }

  /** `x` says what is in force at `t`, and from which transition on and up to which one. */
  ghost predicate InForceAt(s: seq<Transition>, x: SysInfo, t: int, minInstant: int, maxInstant: int)
    requires s != []
  {
    var info := InfoAt(s, t);
    && x.offset == info.offset && x.abbrev == info.abbrev && x.save == (if info.isDst then 1 else 0)
    && BeginsAt(s, x.begin, t, minInstant) && EndsAt(s, x.end, t, maxInstant)
    && (minInstant <= t < maxInstant ==> x.begin <= t < x.end)
  }

  /** There is one such answer. */
  lemma InForceIsUnique(s: seq<Transition>, x: SysInfo, y: SysInfo, t: int, minInstant: int, maxInstant: int)
    requires s != [] && InForceAt(s, x, t, minInstant, maxInstant) && InForceAt(s, y, t, minInstant, maxInstant)
    ensures x == y
  {
    hide InfoAt;
  }

  /** The local time at which a transition's offset takes over. */
  function LocalStart(x: Transition): int {
    x.at + x.info.offset
  }

  lemma {:induction false} SpacedFar(s: seq<Transition>, i: nat, j: nat)
    requires Spaced(s) && i < j < |s|
    ensures s[j].at - s[i].at > 2 * DAY && LocalStart(s[j]) - LocalStart(s[i]) > DAY
    decreases j - i
  {
    if i + 1 < j { SpacedFar(s, i, j - 1); }
  }

  lemma {:induction false} InfoAtIndex(s: seq<Transition>, t: int, j: nat)
    requires Spaced(s) && j < |s|
    requires j == 0 || s[j].at <= t
    requires j == |s| - 1 || t < s[j + 1].at
    ensures InfoAt(s, t) == s[j].info
  {
    if j < |s| - 1 {
      if j + 1 < |s| - 1 { SpacedFar(s, j + 1, |s| - 1); }
      InfoAtIndex(s[..|s| - 1], t, j);
    }
  }

  lemma SpacedIsInOrder(s: seq<Transition>)
    requires Spaced(s)
    ensures InOrder(s)
  {
    forall i, j | 0 <= i < j < |s|
      ensures s[i].at <= s[j].at
    {
      SpacedFar(s, i, j);
    }
  }

  lemma {:induction false} UpperBoundInfo(s: seq<Transition>, t: int, i: nat)
    requires s != [] && InOrder(s) && i <= |s|
    requires (i > 0 ==> s[i - 1].at <= t) && (i < |s| ==> t < s[i].at)
    ensures InfoAt(s, t) == s[if i == 0 then 0 else i - 1].info
  {
    if i < |s| && |s| > 1 {
      UpperBoundInfo(s[..|s| - 1], t, i);
    }
  }

  /** Loading the interval that ends at the first transition after `t` is the answer. */
  lemma LoadInForce(s: seq<Transition>, i: nat, t: int, minInstant: int, maxInstant: int)
    requires InOrder(s) && s != [] && i <= |s|
    requires (i > 0 ==> s[i - 1].at <= t) && (i < |s| ==> t < s[i].at)
    ensures InForceAt(s, Load(s, i, minInstant, maxInstant), t, minInstant, maxInstant)
  {
    UpperBoundInfo(s, t, i);
    hide InfoAt;
    assert BeforeAll(s, t) <==> i == 0 by {
      if i > 0 { assert s[i - 1].at <= t; }
    }
  }

  // ---- the answers as intervals ----

  /** Every instant of an answered interval gets that same answer. */
  ghost predicate AnswersAgree(s: seq<Transition>, minInstant: int, maxInstant: int)
    requires s != []
  {
    forall t, u, x, y |
      && minInstant <= t < maxInstant && InForceAt(s, x, t, minInstant, maxInstant)
      && minInstant <= u < maxInstant && InForceAt(s, y, u, minInstant, maxInstant)
      && x.begin <= u < x.end :: x == y
  }

  /** The time line has instants before the first transition, and some from it on to the second one. */
  predicate StartsLate(s: seq<Transition>, minInstant: int, maxInstant: int)
    requires s != []
  {
    minInstant < s[0].at < maxInstant && (|s| > 1 ==> s[0].at < s[1].at)
  }

  /** That is so exactly when the table does not start late: the interval that is answered before the
      first transition reaches up to the second one. */
  lemma AnswersAgreeExactly(s: seq<Transition>, minInstant: int, maxInstant: int)
    requires s != [] && InOrder(s)
    ensures AnswersAgree(s, minInstant, maxInstant) <==> !StartsLate(s, minInstant, maxInstant)
  {
    hide InfoAt, InForceAt;
    if StartsLate(s, minInstant, maxInstant) {
      var t, u := minInstant, s[0].at;
      LoadInForce(s, 0, t, minInstant, maxInstant);
      LoadInForce(s, 1, u, minInstant, maxInstant);
      var x, y := Load(s, 0, minInstant, maxInstant), Load(s, 1, minInstant, maxInstant);
      assert x.begin <= u < x.end && x != y;
    } else {
      forall t, u, x, y |
        && minInstant <= t < maxInstant && InForceAt(s, x, t, minInstant, maxInstant)
        && minInstant <= u < maxInstant && InForceAt(s, y, u, minInstant, maxInstant)
        && x.begin <= u < x.end
        ensures x == y
      {
        OneAnswer(s, t, u, x, y, minInstant, maxInstant);
      }
    }
  }

  /** How many transitions come up to `t`. */
  lemma UpTo(s: seq<Transition>, t: int) returns (i: nat)
    requires InOrder(s)
    ensures i <= |s| && (i > 0 ==> s[i - 1].at <= t) && (i < |s| ==> t < s[i].at)
  {
    i := 0;
    while i < |s| && s[i].at <= t
      invariant i <= |s| && (i > 0 ==> s[i - 1].at <= t)
    {
      i := i + 1;
    }
  }

  /** An answer is the loaded interval. */
  lemma AnswerIsLoaded(s: seq<Transition>, t: int, x: SysInfo, minInstant: int, maxInstant: int) returns (i: nat)
    requires s != [] && InOrder(s) && InForceAt(s, x, t, minInstant, maxInstant)
    ensures i <= |s| && (i > 0 ==> s[i - 1].at <= t) && (i < |s| ==> t < s[i].at)
    ensures x == Load(s, i, minInstant, maxInstant)
  {
    hide InForceAt, Load;
    i := UpTo(s, t);
    LoadInForce(s, i, t, minInstant, maxInstant);
    InForceIsUnique(s, x, Load(s, i, minInstant, maxInstant), t, minInstant, maxInstant);
  }

  lemma OneAnswer(s: seq<Transition>, t: int, u: int, x: SysInfo, y: SysInfo, minInstant: int, maxInstant: int)
    requires s != [] && InOrder(s) && !StartsLate(s, minInstant, maxInstant)
    requires minInstant <= t < maxInstant && InForceAt(s, x, t, minInstant, maxInstant)
    requires minInstant <= u < maxInstant && InForceAt(s, y, u, minInstant, maxInstant)
    requires x.begin <= u < x.end
    ensures x == y
  {
    hide InForceAt;
    var i := AnswerIsLoaded(s, t, x, minInstant, maxInstant);
    var j := AnswerIsLoaded(s, u, y, minInstant, maxInstant);
  }

  /** Where an answered interval ends, the next one begins. */
  lemma AnswersAbut(s: seq<Transition>, t: int, x: SysInfo, y: SysInfo, minInstant: int, maxInstant: int)
    requires s != [] && InOrder(s) && minInstant <= t < maxInstant && InForceAt(s, x, t, minInstant, maxInstant)
    requires x.end < maxInstant && InForceAt(s, y, x.end, minInstant, maxInstant)
    ensures y.begin == x.end
  {
    hide InForceAt;
    var i := AnswerIsLoaded(s, t, x, minInstant, maxInstant);
    var j := AnswerIsLoaded(s, x.end, y, minInstant, maxInstant);
  }

  lemma IndexOf(s: seq<Transition>, t: int) returns (j: nat)
    requires Spaced(s) && s != []
    ensures j < |s| && (j == 0 || s[j].at <= t) && (j == |s| - 1 || t < s[j + 1].at)
    ensures InfoAt(s, t) == s[j].info
  {
    j := 0;
    while j < |s| - 1 && s[j + 1].at <= t
      invariant j < |s| && (j == 0 || s[j].at <= t)
    {
      j := j + 1;
    }
    InfoAtIndex(s, t, j);
  }

  /** The instant `t` reads `local` on the zone's clocks. */
  ghost predicate Reads(s: seq<Transition>, t: int, local: int)
    requires s != []
  {
    t + InfoAt(s, t).offset == local
  }

  /** The transitions from the k-th on start after `local`, those before it do not. */
  ghost predicate Divides(s: seq<Transition>, local: int, k: nat) {
    && k <= |s|
    && (k < |s| ==> local < LocalStart(s[k]))
    && (k > 0 ==> LocalStart(s[k - 1]) <= local)
  }

  /** The instants that read `local`: one under the last offset that has started by then, unless the
      next one has already cut it off, and one under the offset before it, if that was still in force. */
  lemma ReadingInstants(s: seq<Transition>, local: int, k: nat, t: int)
    requires Spaced(s) && s != [] && Divides(s, local, k)
    ensures Reads(s, t, local) <==>
      || (k == 0 && t == local - s[0].info.offset)
      || (k > 0 && t == local - s[k - 1].info.offset && (k == |s| || t < s[k].at))
      || (k > 1 && t == local - s[k - 2].info.offset && t < s[k - 1].at)
  {
    if Reads(s, t, local) {
      OnlyReadings(s, local, k, t);
    }
    if k == 0 && t == local - s[0].info.offset {
      if 1 < |s| { SpacedFar(s, 0, 1); }
      InfoAtIndex(s, t, 0);
    }
    if k > 0 && t == local - s[k - 1].info.offset && (k == |s| || t < s[k].at) {
      InfoAtIndex(s, t, k - 1);
    }
    if k > 1 && t == local - s[k - 2].info.offset && t < s[k - 1].at {
      SpacedFar(s, k - 2, k - 1);
      InfoAtIndex(s, t, k - 2);
    }
  }

  lemma OnlyReadings(s: seq<Transition>, local: int, k: nat, t: int)
    requires Spaced(s) && s != [] && Divides(s, local, k) && Reads(s, t, local)
    ensures
      || (k == 0 && t == local - s[0].info.offset)
      || (k > 0 && t == local - s[k - 1].info.offset && (k == |s| || t < s[k].at))
      || (k > 1 && t == local - s[k - 2].info.offset && t < s[k - 1].at)
  {
    var j := IndexOf(s, t);
    if j > k { SpacedFar(s, k, j); }
    if j + 2 < k { SpacedFar(s, j + 1, k - 1); }
  }

  /** What the answer to a local time says: the offsets of exactly the instants that read it, earlier
      one first, and what is in force there; or, if there are none, the two sides of the gap. */
  ghost predicate Answers(s: seq<Transition>, local: int, x: LocalInfo, minInstant: int, maxInstant: int)
    requires s != []
  {
    match x.result
    case Unique =>
      && (forall t :: Reads(s, t, local) <==> t == local - x.first.offset)
      && InForceAt(s, x.first, local - x.first.offset, minInstant, maxInstant)
      && x.second == NOTHING
    case Ambiguous =>
      && (forall t :: Reads(s, t, local) <==> t == local - x.first.offset || t == local - x.second.offset)
      && InForceAt(s, x.first, local - x.first.offset, minInstant, maxInstant)
      && InForceAt(s, x.second, local - x.second.offset, minInstant, maxInstant)
      && local - x.first.offset < x.first.end == x.second.begin <= local - x.second.offset
    case Nonexistent =>
      && (forall t :: !Reads(s, t, local))
      && InForceAt(s, x.first, x.first.end - 1, minInstant, maxInstant)
      && InForceAt(s, x.second, x.second.begin, minInstant, maxInstant)
      && local - x.second.offset < x.second.begin == x.first.end <= local - x.first.offset
  }

  /** Where an interval begins and ends. */
  lemma LoadIs(s: seq<Transition>, i: nat, minInstant: int, maxInstant: int)
    requires s != [] && i <= |s|
    ensures var x := Load(s, i, minInstant, maxInstant);
      && x.offset == s[if i == 0 then 0 else i - 1].info.offset
      && (i > 0 ==> x.begin == s[i - 1].at)
      && (0 < i < |s| ==> x.end == s[i].at) && (i == |s| ==> x.end == maxInstant)
      && (i == 0 ==> x.end == if |s| == 1 then maxInstant else s[1].at)
  {
  }

  lemma UniqueAnswers(s: seq<Transition>, local: int, k: nat, minInstant: int, maxInstant: int)
    requires Spaced(s) && s != [] && Divides(s, local, k)
    requires k > 1 ==> local - s[k - 2].info.offset >= s[k - 1].at
    requires 0 < k < |s| ==> local - s[k - 1].info.offset < s[k].at
    ensures Answers(s, local, LocalInfo(Unique, Load(s, k, minInstant, maxInstant), NOTHING), minInstant, maxInstant)
  {
    hide InfoAt, InForceAt, Reads;
    SpacedIsInOrder(s);
    var x := Load(s, k, minInstant, maxInstant);
    LoadInForce(s, k, local - x.offset, minInstant, maxInstant);
    forall t
      ensures Reads(s, t, local) <==> t == local - x.offset
    {
      ReadingInstants(s, local, k, t);
    }
  }

  lemma AmbiguousAnswers(s: seq<Transition>, local: int, k: nat, minInstant: int, maxInstant: int)
    requires Spaced(s) && s != [] && Divides(s, local, k) && k > 1
    requires local - s[k - 2].info.offset < s[k - 1].at
    requires k < |s| ==> local - s[k - 1].info.offset < s[k].at
    ensures Answers(s, local, LocalInfo(Ambiguous, Load(s, k - 1, minInstant, maxInstant), Load(s, k, minInstant, maxInstant)),
                    minInstant, maxInstant)
  {
    hide InfoAt, InForceAt, Reads;
    SpacedIsInOrder(s);
    var first, second := Load(s, k - 1, minInstant, maxInstant), Load(s, k, minInstant, maxInstant);
    SpacedFar(s, k - 2, k - 1);
    LoadInForce(s, k - 1, local - first.offset, minInstant, maxInstant);
    LoadInForce(s, k, local - second.offset, minInstant, maxInstant);
    forall t
      ensures Reads(s, t, local) <==> t == local - first.offset || t == local - second.offset
    {
      ReadingInstants(s, local, k, t);
    }
  }

  lemma NonexistentAnswers(s: seq<Transition>, local: int, k: nat, minInstant: int, maxInstant: int)
    requires Spaced(s) && s != [] && Divides(s, local, k) && 0 < k < |s|
    requires k > 1 ==> local - s[k - 2].info.offset >= s[k - 1].at
    requires local - s[k - 1].info.offset >= s[k].at
    ensures Answers(s, local, LocalInfo(Nonexistent, Load(s, k, minInstant, maxInstant), Load(s, k + 1, minInstant, maxInstant)),
                    minInstant, maxInstant)
  {
    hide InfoAt, InForceAt, Reads;
    SpacedIsInOrder(s);
    SpacedFar(s, k - 1, k);
    if k + 1 < |s| { SpacedFar(s, k, k + 1); }
    LoadInForce(s, k, s[k].at - 1, minInstant, maxInstant);
    LoadInForce(s, k + 1, s[k].at, minInstant, maxInstant);
    forall t
      ensures !Reads(s, t, local)
    {
      ReadingInstants(s, local, k, t);
    }
  }

  /** One step of the backward erasing loop. */
  lemma EraseStep(was: seq<Transition>, i: nat, kept: seq<Transition>)
    requires 0 < i < |was|
    ensures var s := was[..i + 1] + kept;
      && s[i] == was[i] && s[i - 1] == was[i - 1] && s[..i] + s[i + 1..] == was[..i] + kept
      && s == was[..i] + ([was[i]] + kept)
    ensures Compacted(was[..i + 1]) + kept ==
            if was[i].info == was[i - 1].info then Compacted(was[..i]) + kept else Compacted(was[..i]) + ([was[i]] + kept)
    ensures Compacted(was[..1]) == was[..1]
  {
    assert was[..i + 1][..i] == was[..i];
  }

  class ZoneTable {
    var transitions: seq<Transition>

    constructor (ts: seq<Transition>)
      ensures transitions == ts
    {
      transitions := ts;
    }

    /** The erasing loop of `init_impl`, from the back. */
    method Compact()
      modifies this
      ensures transitions == Compacted(old(transitions))
    {
      ghost var was := transitions;
      if transitions == [] { return; }
      var i := |transitions| - 1;
      ghost var kept: seq<Transition> := [];
      assert was[..i + 1] == was;
      hide Compacted;
      assert Compacted(was) == Compacted(was[..i + 1]) + kept;
      while i != 0
        invariant 0 <= i < |was| && transitions == was[..i + 1] + kept
        invariant Compacted(was) == Compacted(was[..i + 1]) + kept
      {
        EraseStep(was, i, kept);
        if transitions[i].info == transitions[i - 1].info {
          transitions := transitions[..i] + transitions[i + 1..];
        } else {
          kept := [was[i]] + kept;
        }
        i := i - 1;
      }
      assert was[..1] == [was[0]];
    }

    /** `get_info_impl` for an instant: the interval that the instant falls into. */
    method GetInfoSys(t: int, minInstant: int, maxInstant: int) returns (x: SysInfo)
      requires transitions != [] && InOrder(transitions)
      requires minInstant <= t < maxInstant
      ensures InForceAt(transitions, x, t, minInstant, maxInstant)
    {
      var i := 0;
      while i < |transitions| && transitions[i].at <= t
        invariant 0 <= i <= |transitions|
        invariant forall j | 0 <= j < i :: transitions[j].at <= t
      {
        i := i + 1;
      }
      LoadInForce(transitions, i, t, minInstant, maxInstant);
      x := Load(transitions, i, minInstant, maxInstant);
    }

    /** `get_info_impl` for a local time. */
    method GetInfoLocal(local: int, minInstant: int, maxInstant: int) returns (x: LocalInfo)
      requires transitions != [] && Spaced(transitions)
      requires transitions[|transitions| - 1].at < maxInstant
      ensures Answers(transitions, local, x, minInstant, maxInstant)
    {
      hide Answers, Load;
      ghost var s := transitions;
      var tr := 0;
      while tr < |transitions| && !(local - transitions[tr].info.offset < transitions[tr].at)
        invariant 0 <= tr <= |transitions|
        invariant tr > 0 ==> LocalStart(transitions[tr - 1]) <= local
      {
        tr := tr + 1;
      }
      ghost var k := tr;
      LoadIs(s, k, minInstant, maxInstant);
      x := LocalInfo(Unique, Load(transitions, tr, minInstant, maxInstant), NOTHING);
      var tps := local - x.first.offset;
      if k > 1 { SpacedFar(s, k - 2, k - 1); }
      if tps < x.first.begin + DAY && tr != 0 {
        tr := tr - 1;
        LoadIs(s, k - 1, minInstant, maxInstant);
        var second := Load(transitions, tr, minInstant, maxInstant);
        tps := local - second.offset;
        if tps < second.end && x.first.end != second.end {
          x := LocalInfo(Ambiguous, second, x.first);
          AmbiguousAnswers(s, local, k, minInstant, maxInstant);
          return;
        }
      } else if tps >= x.first.end && tr != |transitions| {
        tr := tr + 1;
        LoadIs(s, k + 1, minInstant, maxInstant);
        var second := Load(transitions, tr, minInstant, maxInstant);
        tps := local - second.offset;
        if tps < second.begin {
          x := LocalInfo(Nonexistent, x.first, second);
          NonexistentAnswers(s, local, k, minInstant, maxInstant);
          return;
        }
      }
      UniqueAnswers(s, local, k, minInstant, maxInstant);
    }
  }
}
