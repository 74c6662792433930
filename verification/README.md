# Models of vendored algorithms

A Dafny model of five algorithmic cores of the libraries kept under `extern/`, with proofs of what
each of them is for. `dafny verify dfyconfig.toml` checks the whole project.

**Time-zone rules** (`date/src/tz.cpp`; modules `Tz*`). A rule fires once in every year of its range.
`RuleTable` holds the vector of rules, which `split_overlaps` rewrites in place: it compares, splits,
inserts and re-sorts until any two rules of a name have identical or disjoint ranges. Proved: the form
that is reached, that its pieces are determined by the rules that went in, that nothing that is in force
in any year is lost or doubled on the way, in what order the rules of one range come out, when the
transitions stay the same, and that the loops end. On that form, the walks by `find_next_rule` and `find_previous_rule` are shown to be the time order and its
reverse, and `find_rule` to answer with the intervals of a tiling of the time line, for instants in UTC
and for local times. `ZoneTable` is the other build's transition table, with its compaction and its
lookups by instant and by local time. A calendar is a record of functions, so the proofs hold for any
calendar that reads its own dates back; `TzGregorian` shows that the Gregorian one does.

**Configuration files** (`cli11/CLI11.hpp`; modules `Cli*`). `ConfigReader` emits the "++" and "--" items
of sections; they are shown to be the shortest moves from section to section, closes that are taken back
included, and, with a meaning given by a reader that keeps a stack, properly nested exactly under a
condition on the file. The splitter is shown to keep words, quotes and balanced groups whole, and the
printer of values to be undone by it and the quote processing. Escaping is undone for every string, Unicode escapes stand for
the UTF-8 form of their code point, and the bracket matcher finds the matching bracket of any balanced
text.

**Compressed rows** (`eigen/bench/sparse_setter.cpp`; modules `Csr*`). A counting sort, a sort of each
row and an addition of duplicates, all on arrays in place, keep the matrix that the triples denote.

**Triangular kernels** (`eigen/blas`; modules `Scalars`, `Triangular*`, `Packed*`, `Rank2`). A `Matrix` is
packed or band storage; `At` is the dense matrix that it denotes. Scalars are exact complex numbers.
Every solver, by rows or columns, upper or lower, leaves the solution in place of the right-hand side;
the products add the matrix-vector product, alike for both storage orders of a matrix; solver and product
undo each other; and the dense and the packed rank-two update agree.

**Greedy partitions** (`eigen/bench/analyze-blocking-sizes.cpp`; modules `Subsets`, `SubsetLimits`,
`Efficiency`, `BestSubsets`, `CandidateSearch`, `Partition*`, `NarrowingExample`). The subset enumeration
meets every k-subset once, the 64-bit arithmetic that limits it is exact, and the search returns true
partitions of maximal groups, better ones in every round, until it ends.

`Sequences` holds what is shared about permutations.

## What holds only under a condition

- Rewriting a day form as a plain date drops the year. It names the same day exactly when the form
  resolves to a day of its own year (`TzCalendar.CanonicalizeNamesSameDay`). `split_overlaps` rewrites the
  pieces of a single year, so it keeps the transitions of the configured years exactly when no rule leaves
  a single-year piece whose day falls into another year; and a rule leaves such a piece of a year that it
  covers exactly where the rules of its name begin or have just ended in that year and in the next
  (`TzRuleTable.SplitOverlaps`, `TzPieces.SplittingKeepsEvents`, `TzPieces.SinglePieces`). It fails for a
  rule of 2003 alone on the first Sunday from 29 December: that is 4 January 2004, and is rewritten to
  4 January 2003 (`TzGregorian.MovedRuleMoves`, `TzGregorian.SplitMovedRule`).
- Comparing days with times on different clocks is comparing instants while the times of day and the
  shifts put the clocks less than two days apart (`TzFindRule.CompareIsInstantOrder`). Beyond that bound,
  days two apart are compared the wrong way round (`TzFindRule.FarClocks`).
- An interval that the transition table answers for an instant before its first transition reaches up to
  the second one. All instants of an answered interval get that same answer exactly when the table does not
  start late (`TzTransitions.AnswersAgreeExactly`).
- After quoted or bracketed text, `split_up` drops the next character, whether it is the delimiter or not
  (`CliSplitUp.Gap`, `CliSplitUp.LineSplits`).
- Going back to the default section from a section of two or more segments leaves the outer sections
  open. The items are properly nested exactly when a file moves on to another section before the next
  value or the end (`CliSections.ConfigReader.ReadLines`). A header `[a.b]` and a default header leave `a`
  open at the end (`CliSections.ReadDanglingSection`).
- Once the search for a group has narrowed its candidates, it reads places among the candidates as places
  of the remainder. The trials of a size read the candidates' own files exactly when the candidates are
  still the first places (`CandidateSearch.ReadsOwnExactly`, and over a whole search
  `CandidateSearch.AllReadOwnExactly`); if so, the place chosen is the one that reading the candidates' own
  files leads to (`CandidateSearch.SearchesAgree`). With the four files of `NarrowingExample` the search
  chooses file 1, and the candidates' own files lead to file 2. The groups are maximal all the same
  (`Partition.FindSubset`).
- The search for a group takes a threshold from 0 up to, but not including, 1. Below 0 it could narrow its
  candidates to an empty subset, and at 1 the source aborts; the action passes neither.
- The packed rank-two update stores real diagonal entries. It agrees with the dense update on an entry
  exactly when that is off the diagonal or was real (`Rank2.KernelsAgree`).
- A Unicode escape of a surrogate is an error, and one beyond U+10FFFF appends nothing
  (`CliUnicode.CodePointIsUtf8`).

Two comments in `tz.cpp` differ from the code, which the model follows: `find_previous_rule` calls
`std::terminate` on the first pair instead of returning null (lines 1537-1556), and `find_next_rule`
returns null, not a defaulted rule, after the last (lines 1572-1590).

## Model

| member | source | states |
|---|---|---|
| TzCalendar.NamedDay | extern/date/src/tz.cpp:994-1020 | the day a form names is the given date, or the asked weekday among the seven days up to the last day of the month, up to a date, or from a date on |
| TzCalendar.WeekdaysFollow | extern/date/src/tz.cpp:1008-1019 | weekdays follow each other in cycles of seven, and day 0 is a Thursday |
| TzCalendar.CanonicalizeNamesSameDay | extern/date/src/tz.cpp:1028-1068 | a canonicalized day form names the same day in its year exactly when it was a plain date or resolves into that year |
| TzSplit.PiecesConserve | extern/date/src/tz.cpp:1407-1474 | whatever the case of a split, its pieces carry together exactly the weight (years, activity of a payload in a year, firing of a transition) of the two rules |
| TzSplit.SplitConserves | extern/date/src/tz.cpp:1407-1474 | a split changes no additive quantity of a whole run of rules |
| TzSplit.SplitKeepsCuts | extern/date/src/tz.cpp:1407-1474 | a split keeps exactly the cuts: the years in which a range begins or one has just ended |
| TzSplit.SortKeepsClear | extern/date/src/tz.cpp:1486-1489 | the re-sort inside the loop keeps the rules already compared out of the way of the current rule, however ties are broken |
| TzSplit.SortKeeps | extern/date/src/tz.cpp:1486-1489 | so does any property that only looks at the sort key |
| TzRule.TotalPermutation | extern/date/src/tz.cpp:1487-1488 | sorting changes no additive quantity |
| TzRule.SortedBy | extern/date/src/tz.cpp:1285-1299 | what the sort key means: in a sorted list names do not fall, then first years, then months, then last years, then days |
| TzRule.LastWeekdayIsLate | extern/date/src/tz.cpp:885-900 | a last weekday of a month counts as its 31st |
| TzRule.CountWithinYears | extern/date/src/tz.cpp:1481-1492 | there are never more rules than years covered, which bounds the growing end of the loops |
| TzPass.SplitFollows | extern/date/src/tz.cpp:1481-1492 | a split respects the range that an earlier pass has finished |
| TzPass.StepOver | extern/date/src/tz.cpp:1483-1491 | a comparison without overlap keeps the invariant of a pass |
| TzPass.StepSplit | extern/date/src/tz.cpp:1483-1491 | splitting and re-sorting keep the invariant of a pass, even when they shorten the current rule after equal rules were compared |
| TzPass.SplitKeepsDays | extern/date/src/tz.cpp:1483-1491 | after a split and a sort, no rule compared so far that starts in the first year of the run comes earlier in the year than its first rule |
| TzPass.PassDone | extern/date/src/tz.cpp:1481-1492 | after a pass the rest of the run overlaps its first rule nowhere, or is marked to be cut back to it; and no rule that starts in the same year comes earlier in it |
| TzTable.RuleTable.SplitSameStart | extern/date/src/tz.cpp:1418-1437 | the vector after splitting two rules of one first year |
| TzTable.RuleTable.SplitLaterStart | extern/date/src/tz.cpp:1438-1473 | the vector after splitting rules of different first years, in all three cases |
| TzTable.RuleTable.Split | extern/date/src/tz.cpp:1407-1474 | the asserted precondition suffices; the run becomes the pieces, the rest of the vector stays, and the end grows with the insertions |
| TzTable.RuleTable.Sort | extern/date/src/tz.cpp:1487-1488 | `std::sort` on part of the vector: a permutation, in the order that TzRule.SortedBy spells out |
| TzTable.PassKeepsDays | extern/date/src/tz.cpp:1481-1492 | a pass puts no rule into the rest of a run that should have come before a finished rule of the same year |
| TzTable.RuleTable.Pass | extern/date/src/tz.cpp:1483-1491 | the inner loop, whose end grows, terminates with the pass invariant, and with all totals and all cuts kept |
| TzTable.RuleTable.Compare | extern/date/src/tz.cpp:1485-1490 | one step of the inner loop keeps the pass invariant, the totals and the cuts; the assertions of `overlaps` and `split` hold at the calls |
| TzTable.RuleTable.FinishRule | extern/date/src/tz.cpp:1481-1492 | one round of the outer loop finishes one more rule |
| TzTable.RuleTable.SplitPasses | extern/date/src/tz.cpp:1481-1492 | the two loops terminate in canonical form, with the same totals, no empty range, ranges that begin and end in the same years as before, and rules of one range in order of month and day |
| TzTable.RuleTable.CanonicalizeRun | extern/date/src/tz.cpp:1493-1497 | exactly the single-year rules of the run are canonicalized |
| TzTable.RuleTable.SplitOverlapsRun | extern/date/src/tz.cpp:1476-1498 | the run is a canonical split of what it was, with the same totals and cuts and with rules of one range in order of month and day, rewritten; the rest of the vector is untouched |
| TzPieces.CanonicalBetweenCuts | extern/date/src/tz.cpp:1476-1498 | in a canonical run every range lies between two neighbouring cuts |
| TzPieces.PiecesAreDetermined | extern/date/src/tz.cpp:1476-1498 | the pieces that come out are determined by the rules that went in: each payload in force between two neighbouring cuts has that range, as often as it was in force, and there is nothing else |
| TzPieces.SinglePieces | extern/date/src/tz.cpp:1476-1498 | a piece of a single year comes out exactly for the rules that cover the year and whose name has cuts on both sides of it |
| TzPieces.RewritingKeepsEvents | extern/date/src/tz.cpp:1493-1497 | rewriting the days of a run keeps the number of every transition of these years exactly when every single-year rule of these years names a day of its own year |
| TzPieces.SplittingKeepsEvents | extern/date/src/tz.cpp:1476-1498 | splitting and rewriting a run keep the number of every transition of these years exactly when no rule that went in leaves a single-year piece whose day falls into another year |
| TzGregorian.GregorianIsLawful | extern/date/src/tz.cpp:1028-1068 | the Gregorian calendar reads its own dates back, and a month and day of any year is a day of any other year |
| TzGregorian.MovedRuleMoves | extern/date/src/tz.cpp:1493-1497 | a rule of one year that resolves into the next one loses its transition when its day is rewritten |
| TzGregorian.SplitMovedRule | extern/date/src/tz.cpp:1500-1534 | `split_overlaps` on a table of that rule does not keep what fires |
| TzTrim.FirstNotEnded | extern/date/src/tz.cpp:1515 | `lower_bound` by year finds the first rule that has not ended before the first configured year |
| TzTrim.FrontCutKeepsYear | extern/date/src/tz.cpp:1515-1522 | after the erasure the first configured year still begins with a rule if there was one, and only the first rule left may have ended before it |
| TzTrim.SingleStays | extern/date/src/tz.cpp:1517 | a single rule that has ended is not erased |
| TzTrim.TrimFront | extern/date/src/tz.cpp:1515-1522 | exactly the rules before that cut are erased |
| TzTrim.TrimBack | extern/date/src/tz.cpp:1523-1530 | exactly the rules that start after the last configured year are erased |
| TzTrim.TrimRun | extern/date/src/tz.cpp:1515-1530 | both erasures together leave a stretch of the run, and what they erase has ended before or starts after the configured years |
| TzRuleTable.EndOfRun | extern/date/src/tz.cpp:1506-1511 | `upper_bound` by name finds the end of the rules of one name |
| TzRuleTable.SplitOneName | extern/date/src/tz.cpp:1504-1532 | one name's rules become canonical and trimmed, are cut only where its rules began or ended, are in order of month and day within a range of more than one year, and fire in the configured years as before exactly when no single-year piece falls into another year |
| TzRuleTable.SplitOverlaps | extern/date/src/tz.cpp:1500-1534 | the whole table ends in canonical form, trimmed to the configured years and cut only where rules of the name began or ended, with the rules of one range of more than one year in order of month and day; its transitions in these years are those of before exactly when no rule leaves a single-year piece whose day falls into another year |
| TzTraverse.NextPairIsNext | extern/date/src/tz.cpp:1581-1637 | `find_next_rule` finds the least later pair of rule and year, or null when there is none |
| TzTraverse.PreviousPairIsPrevious | extern/date/src/tz.cpp:1545-1570 | `find_previous_rule` finds the greatest earlier pair, and terminates only on the first |
| TzTraverse.PreviousInvertsNext | extern/date/src/tz.cpp:1545-1637 | the two undo each other wherever both are defined |
| TzTraverse.WalkVisitsAll | extern/date/src/tz.cpp:1581-1606 | repeated `find_next_rule` meets every later pair once, in time order, and ends |
| TzTraverse.WalkCoversRun | extern/date/src/tz.cpp:1581-1606 | from the first pair it meets every pair of the run |
| TzTraverse.WalkInYearOrder | extern/date/src/tz.cpp:1581-1606 | on the table that `split_overlaps` leaves, the walk meets the rules of one range of more than one year in order of month and day within each year |
| TzTraverse.NameRunIsCanonical | extern/date/src/tz.cpp:1500-1534 | a name's rules in the table that `split_overlaps` leaves are what the walks need |
| TzTraverse.FindNextRule | extern/date/src/tz.cpp:1581-1606 | the loop computes the next pair |
| TzTraverse.FindNextRuleByName | extern/date/src/tz.cpp:1612-1637 | the variant that finds the bounds by name computes the same pair |
| TzTraverse.FindPreviousRule | extern/date/src/tz.cpp:1545-1570 | the loop computes the previous pair |
| TzTraverse.FindFirstStdRule | extern/date/src/tz.cpp:1639-1653 | the rule of the earliest pair without saving, or the exception exactly when no rule is without |
| TzFindRule.CompareIsInstantOrder | extern/date/src/tz.cpp:917-957 | comparing two days with times on different clocks is comparing their UTC instants, while times of day and shifts put the clocks less than two days apart |
| TzFindRule.FarClocks | extern/date/src/tz.cpp:917-957 | at or beyond two days, some days are compared the wrong way round |
| TzFindRule.FindRuleForZone | extern/date/src/tz.cpp:1655-1681 | the last pair of those before the end of a period, none of them reached by it, the next one reached |
| TzFindRule.LastBeforeEndIsInstant | extern/date/src/tz.cpp:1655-1681 | so, with close clocks, it is the last pair whose instant comes before the end of the period, in UTC |
| TzFindRule.SaveBeforeIs | extern/date/src/tz.cpp:1655-1681 | the saving in force before a pair is that of the rule before it, and none before the first |
| TzFindRule.FindRuleAt | extern/date/src/tz.cpp:1683-1720 | the last pair of those up to an instant, each read on its own clock |
| TzFindRule.AfterIsInstant | extern/date/src/tz.cpp:1683-1720 | the test reads the clock of the rule: with the three times of one instant, it says whether the transition comes after that instant in UTC |
| TzFindRule.IntervalsAbut | extern/date/src/tz.cpp:1722-1775 | the intervals that `find_rule` answers with abut, are not empty and cover the time line |
| TzFindRule.IntervalsTile | extern/date/src/tz.cpp:1722-1775 | every instant lies in exactly one of them |
| TzFindRule.FromTransition | extern/date/src/tz.cpp:1753-1767 | the answer from a transition on says what its rule sets, from its instant under the saving before it up to the instant of the next one; the neighbours asked for exist |
| TzFindRule.Conclude | extern/date/src/tz.cpp:1745-1773 | the three ends of the function answer with the interval before or from the transition at which the loop stopped |
| TzFindRule.FindRule | extern/date/src/tz.cpp:1722-1775 | the answer says what is in force between two neighbouring transitions, those next to where the loop stops: begin, end, saving and abbreviation by the rules themselves; none of the "can't be null" assertions fails |
| TzFindRule.FindRuleAnswersUtc | extern/date/src/tz.cpp:1722-1775 | for an instant in UTC that interval holds it and is the only one; every instant of it has the same answer |
| TzFindRule.HoldsOnce | extern/date/src/tz.cpp:1722-1775 | at every instant exactly one thing is in force |
| TzFindRule.FindRuleSaysUtc | extern/date/src/tz.cpp:1722-1775 | for an instant in UTC the answer is that one: the saving and abbreviation of the last transition up to it, or the initial ones, between this transition and the next |
| TzFindRule.TransitionsExist | extern/date/src/tz.cpp:1735-1773 | between any two pairs of a run, in order, there is the walk that `find_rule` follows |
| TzLocalInfo.AnswerEnds | extern/date/src/tz.cpp:1722-1775 | the intervals before the answer to a local query have ended by the local time, and the answer has not |
| TzLocalInfo.FindRuleAnswersLocal | extern/date/src/tz.cpp:1722-1775 | a local query gets the first interval that reads the local time, or, when none does, the interval after the gap that the time falls into |
| TzLocalInfo.FindAt | extern/date/src/tz.cpp:2356-2360 | an instant in UTC gets what is in force at it |
| TzLocalInfo.GetInfoLocal | extern/date/src/tz.cpp:2362-2388 | unique, ambiguous or nonexistent exactly when one, two or no instants read the local time; what is answered is in force at them, earlier one first, or on both sides of the gap |
| TzTransitions.CompactedDiffers | extern/date/src/tz.cpp:2207-2218 | after compaction no two neighbours agree in offset, abbreviation and DST flag |
| TzTransitions.CompactedSaysTheSame | extern/date/src/tz.cpp:2207-2218 | every instant looks up the same as before compaction |
| TzTransitions.UpperBoundInfo | extern/date/src/tz.cpp:2227-2264 | what is in force at an instant is what the last transition up to it sets |
| TzTransitions.ZoneTable.Compact | extern/date/src/tz.cpp:2207-2218 | the backward erase loop computes the compaction |
| TzTransitions.ReadingInstants | extern/date/src/tz.cpp:2266-2305 | which instants read a given local time |
| TzTransitions.ZoneTable.GetInfoSys | extern/date/src/tz.cpp:2227-2264 | the answer says what is in force, from the last transition up to the instant to the first one after it; before the first transition, from the start of the time line to the second one |
| TzTransitions.InForceIsUnique | extern/date/src/tz.cpp:2227-2264 | that fixes the answer |
| TzTransitions.AnswersAgreeExactly | extern/date/src/tz.cpp:2227-2264 | all instants of an answered interval get the same answer exactly when the table does not start after the start of the time line |
| TzTransitions.AnswersAbut | extern/date/src/tz.cpp:2227-2264 | where an answered interval ends, the next one begins |
| TzTransitions.ZoneTable.GetInfoLocal | extern/date/src/tz.cpp:2266-2305 | unique, ambiguous or nonexistent exactly when one, two or no instants read the local time; each interval is the answer for the instant that reads it, or for the two sides of the gap, earlier one first |
| CliSections.MoveReplays | extern/cli11/CLI11.hpp:10216-10263 | the closes and opens of a move from one section to another are properly nested and leave the new section open |
| CliSections.MoveTouches | extern/cli11/CLI11.hpp:10216-10263 | a move closes exactly the old section and those around it that the new one does not lie in, and opens exactly the new one and those around it that were not open; what both lie in stays open |
| CliSections.MoveIsShortest | extern/cli11/CLI11.hpp:10216-10263 | no other properly nested items that end by opening the new section are fewer |
| CliSections.JoinMeans | extern/cli11/CLI11.hpp:10486-10493 | merging inputs into the last value keeps the nesting and adds exactly these inputs |
| CliSections.JoinedApart | extern/cli11/CLI11.hpp:10486-10493 | no two neighbouring values of one name and section are left apart |
| CliSections.FileIsNested | extern/cli11/CLI11.hpp:10275-10505 | the items of a file are properly nested, with everything closed at the end, exactly when no nested section is left dangling |
| CliSections.FileKeepsEntries | extern/cli11/CLI11.hpp:10275-10505 | every input keeps its place, its name and its section |
| CliSections.FileSkipsDeep | extern/cli11/CLI11.hpp:10474-10476 | what is skipped is exactly what lies in too many sections |
| CliSections.ConfigReader.CloseDownTo | extern/cli11/CLI11.hpp:10223-10226 | closes follow from the innermost section outward, down to the given depth |
| CliSections.ConfigReader.OpenParents | extern/cli11/CLI11.hpp:10245-10256 | the parents that are missing are opened, each inside the one before |
| CliSections.ConfigReader.LeaveTo | extern/cli11/CLI11.hpp:10228-10244 | exactly what the old and the new section do not share is closed, also when the last close has to be taken back for that |
| CliSections.ConfigReader.CheckParentSegments | extern/cli11/CLI11.hpp:10216-10263 | what is emitted, with the close that was there, is the shortest move from the old section to the new one |
| CliSections.ConfigReader.ReadHeader | extern/cli11/CLI11.hpp:10317-10333 | a header emits the shortest move from the section that was left |
| CliSections.ConfigReader.ReadDefaultHeader | extern/cli11/CLI11.hpp:10317-10330 | a header of the default section closes the innermost section only |
| CliSections.ConfigReader.ReadValue | extern/cli11/CLI11.hpp:10471-10493 | a value is kept in its section, merged with the last one if it can be, unless nested too deep |
| CliSections.ConfigReader.Finish | extern/cli11/CLI11.hpp:10494-10505 | the end of the file closes the current section and all around it; after a return to the default section nothing more |
| CliSections.ConfigReader.ReadLines | extern/cli11/CLI11.hpp:10275-10505 | the items are exactly those of the shortest moves from section to section and of the values, neighbouring ones merged; they are a properly nested word exactly when no nested section is left dangling, and every input keeps its section and name |
| CliSections.ReadDanglingSection | extern/cli11/CLI11.hpp:10317-10330 | the reader, after a nested section and a default header, ends with the outer section still open |
| CliSections.DanglingSection | extern/cli11/CLI11.hpp:10317-10330 | such a file does not meet the condition, whatever the section of two or more segments |
| CliSections.ReadSiblings | extern/cli11/CLI11.hpp:10237-10238 | of two sections of one, the outer one stays open from the first to the second: the items, one by one |
| CliSections.WithoutDefaultHeaders | extern/cli11/CLI11.hpp:10317-10342 | a file without headers of the default section leaves none |
| CliText.UnescapedInvertsEscaped | extern/cli11/CLI11.hpp:865-978 | removing escapes undoes adding them, for every string |
| CliText.LetterStandsFor | extern/cli11/CLI11.hpp:926-971 | what each letter after a backslash stands for, the 0 too; any other letter is an error |
| CliText.EscapedAs | extern/cli11/CLI11.hpp:865-878 | which characters are escaped, and with which letters |
| CliText.AddEscapedCharacters | extern/cli11/CLI11.hpp:865-878 | the loop computes the escaped text |
| CliText.RemoveEscapedCharacters | extern/cli11/CLI11.hpp:920-978 | the loop computes the text without escapes, or the error |
| CliUnicode.CodePointIsUtf8 | extern/cli11/CLI11.hpp:896-918 | what is appended for a code point is its UTF-8 form by section 3 of RFC 3629; a surrogate is an error, and beyond U+10FFFF nothing is appended |
| CliUnicode.Utf8IsUnique | extern/cli11/CLI11.hpp:896-918 | it is the only string of bytes that is that form |
| CliUnicode.HexIsRead | extern/cli11/CLI11.hpp:880-892 | a string is read as a number exactly when it has the digits of that number, in either case |
| CliUnicode.EscapeStandsForCodePoint | extern/cli11/CLI11.hpp:932-969 | a short or long Unicode escape stands for the UTF-8 form of the code point that its digits denote, followed by what the rest of the text stands for |
| CliUnicode.BadEscape | extern/cli11/CLI11.hpp:941-947 | an escape whose characters are no digits is an error |
| CliUnicode.CutOff | extern/cli11/CLI11.hpp:923-960 | so is one that the text is too short for |
| CliSplit.CloseStringQuote | extern/cli11/CLI11.hpp:980-992 | the first quote that is not escaped |
| CliSplit.CloseLiteralQuote | extern/cli11/CLI11.hpp:994-997 | the first quote |
| CliSplit.CloseSequence | extern/cli11/CLI11.hpp:999-1044 | the loop with its stack of closers computes the end of a sequence |
| CliSplit.BalancedIsPassedOver | extern/cli11/CLI11.hpp:1014-1039 | balanced text is passed over without changing what is open |
| CliSplit.SequenceEndMatches | extern/cli11/CLI11.hpp:999-1044 | the bracket found is the one that matches, past nested groups, quoted brackets and escaped quotes |
| CliSplitUp.SplitUp | extern/cli11/CLI11.hpp:1046-1084 | the loop computes the parts of a line |
| CliSplitUp.PieceIsFirst | extern/cli11/CLI11.hpp:1055-1081 | a line that begins with a word, a quote or a group of brackets has exactly that as its first part |
| CliSplitUp.LineSplits | extern/cli11/CLI11.hpp:1046-1084 | a line of words, quotes and groups with balanced text inside, for any delimiter, with white space around them, splits into exactly these; after a quote or a group one character is taken for the delimiter, whatever it is |
| CliSplitUp.WordsAtDelimiter | extern/cli11/CLI11.hpp:1069-1079 | words with the delimiter and spaces between them come out as they are |
| CliSplitUp.WordsAtSpaces | extern/cli11/CLI11.hpp:1048-1050 | without a delimiter, words come out that have any white space between them |
| CliSplitUp.BracketsKeepWhole | extern/cli11/CLI11.hpp:1055-1068 | each of the four kinds of brackets keeps balanced text whole |
| CliSplitUp.UnclosedTakesAll | extern/cli11/CLI11.hpp:1058-1060 | a quote or bracket that is never closed takes all the text |
| CliRoundTrip.PrintedForms | extern/cli11/CLI11.hpp:10104-10160 | a printable value is printed bare, in literal quotes or escaped in string quotes |
| CliRoundTrip.PrintedBare | extern/cli11/CLI11.hpp:10104-10160 | certain words and numbers, and nothing else, are printed as they stand; otherwise a single character is printed in literal quotes |
| CliRoundTrip.ConvertedIsToken | extern/cli11/CLI11.hpp:10104-10160 | every printed value is one part wherever it stands in a list, and reads back as itself |
| CliRoundTrip.IniJoin | extern/cli11/CLI11.hpp:10163-10189 | the loop computes the bracketed, separated list |
| CliRoundTrip.JoinedSplits | extern/cli11/CLI11.hpp:1046-1084 | a joined list of such parts splits into exactly them |
| CliRoundTrip.RoundTripParts | extern/cli11/CLI11.hpp:10104-10189 | the printed list splits into parts that read back as the values |
| CliRoundTrip.ReadList | extern/cli11/CLI11.hpp:10436-10467 | a list is read by taking off the brackets, splitting, and processing the quotes of each part |
| CliRoundTrip.ListReads | extern/cli11/CLI11.hpp:10436-10467 | a list in brackets, of words, quotes and groups, is split into exactly these |
| CliRoundTrip.PieceReads | extern/cli11/CLI11.hpp:1191-1211 | quoted text is read without its quotes, and without escapes in string quotes; words and groups as they stand |
| CliRoundTrip.RoundTrip | extern/cli11/CLI11.hpp:10104-10189 | printing and then reading a list of printable strings is the identity, whatever counts as a number |
| Csr.RowsDenoteTriples | extern/eigen/bench/sparse_setter.cpp:299-342 | the rows of the triples denote the sum of the triples at every place |
| Csr.CountRows | extern/eigen/bench/sparse_setter.cpp:309-314 | the counts of entries by row |
| Csr.SumCounts | extern/eigen/bench/sparse_setter.cpp:316-322 | the running sums are where the rows start, and the last is the number of entries |
| Csr.PlaceEntry | extern/eigen/bench/sparse_setter.cpp:325-333 | an entry goes into the next free slot of its row, inside the buffers, and overwrites no other entry |
| Csr.PlaceEntries | extern/eigen/bench/sparse_setter.cpp:325-333 | every row holds its triples in input order |
| Csr.ShiftRows | extern/eigen/bench/sparse_setter.cpp:335-339 | the final shift restores the row starts |
| Csr.CooToCsr | extern/eigen/bench/sparse_setter.cpp:299-342 | a stable counting sort: row pointers from 0 to the number of entries, each row its triples in order |
| CsrRows.SortIndices | extern/eigen/bench/sparse_setter.cpp:350-374 | each row is sorted by column and a permutation of what it was |
| CsrRows.MergedDenotesTheSame | extern/eigen/bench/sparse_setter.cpp:377-402 | adding up duplicates keeps every sum |
| CsrRows.MergedIsStrict | extern/eigen/bench/sparse_setter.cpp:377-402 | in a sorted row it leaves strictly increasing columns |
| CsrRows.MergeRow | extern/eigen/bench/sparse_setter.cpp:386-398 | a row is merged in place; the write index never passes an unread entry |
| CsrRows.SumDuplicates | extern/eigen/bench/sparse_setter.cpp:377-402 | every row, between its new ends, is the merged old row |
| CsrRows.RowsAreTriples | extern/eigen/bench/sparse_setter.cpp:299-342 | the buffers after the counting sort, read as rows |
| CsrRows.RowConverted | extern/eigen/bench/sparse_setter.cpp:405-421 | the three steps together keep what a row denotes |
| CsrRows.SetrandScipy | extern/eigen/bench/sparse_setter.cpp:405-421 | every entry of the result is the sum of the triples at its place, with strictly increasing columns in each row |
| Scalars.DivMul | extern/eigen/blas/PackedTriangularSolverVector.h:39-40 | dividing by a nonzero complex number and multiplying by it gives the number back |
| Scalars.ConjIsMirror | extern/eigen/blas/PackedTriangularSolverVector.h:29-30 | a number times its conjugate is its norm, and conjugation undoes itself |
| Triangular.IndexInBounds | extern/eigen/blas/PackedTriangularSolverVector.h:31-43 | every entry that a kernel may read is inside the storage |
| Triangular.PlacesAreDistinct | extern/eigen/blas/PackedTriangularMatrixVector.h:34-43 | no two entries of a packed triangle share a place |
| Triangular.PackedIsDense | extern/eigen/blas/PackedTriangularMatrixVector.h:34-43 | the packed triangle is stored without gaps, row after row or column after column |
| Triangular.ConjugatedAt | extern/eigen/blas/PackedTriangularSolverVector.h:29-30 | conjugated storage denotes the conjugated matrix |
| Triangular.ProductParts | extern/eigen/blas/BandTriangularSolver.h:15-16 | a row of the product is what its triangle and its diagonal contribute |
| TriangularSolve.RowStep | extern/eigen/blas/PackedTriangularSolverVector.h:32-43 | substituting by rows solves one more equation and keeps those already solved |
| TriangularSolve.ColumnStep | extern/eigen/blas/PackedTriangularSolverVector.h:60-70 | substituting by columns solves one more equation and leaves the others with what remains |
| PackedSolve.PackedRow | extern/eigen/blas/PackedTriangularSolverVector.h:31-43 | the running offset is where row i's part of the triangle and its diagonal are |
| PackedSolve.SolvePackedRowMajor | extern/eigen/blas/PackedTriangularSolverVector.h:25-44 | the matrix times the result is the right-hand side, upper and lower, conjugated or not, with or without a unit diagonal |
| PackedSolve.PackedColumn | extern/eigen/blas/PackedTriangularSolverVector.h:59-70 | the running offset is where column c's part of the triangle and its diagonal are |
| PackedSolve.SolvePackedColMajor | extern/eigen/blas/PackedTriangularSolverVector.h:53-71 | the same for storage by columns |
| PackedSolve.TransposedAt | extern/eigen/blas/PackedTriangularSolverVector.h:77-83 | the same buffer read with the other triangle and order denotes the transposed matrix |
| PackedSolve.SolvePackedOnTheRight | extern/eigen/blas/PackedTriangularSolverVector.h:75-84 | the result times the matrix, from the left, is the right-hand side |
| PackedSolve.BandRow | extern/eigen/blas/BandTriangularSolver.h:42-44 | where row i's part of the band is, also near the edges |
| PackedSolve.SolveBandRowMajor | extern/eigen/blas/BandTriangularSolver.h:28-54 | the band matrix times the result is the right-hand side |
| PackedSolve.BandColumn | extern/eigen/blas/BandTriangularSolver.h:78-80 | where column i's part of the band is, also near the edges |
| PackedSolve.SolveBandColMajor | extern/eigen/blas/BandTriangularSolver.h:64-91 | the same for storage by columns |
| PackedMultiply.RowIsKeptPart | extern/eigen/blas/PackedTriangularMatrixVector.h:66-71 | the part that is read, with the ones of a unit diagonal, makes up the whole row |
| PackedMultiply.MultiplyRowMajor | extern/eigen/blas/PackedTriangularMatrixVector.h:56-74 | res += alpha M rhs, for all diagonals, with either factor conjugated |
| PackedMultiply.ColumnAdded | extern/eigen/blas/PackedTriangularMatrixVector.h:34-43 | adding one scaled column advances all partial products |
| PackedMultiply.MultiplyColMajor | extern/eigen/blas/PackedTriangularMatrixVector.h:27-44 | res += alpha M rhs for storage by columns |
| PackedMultiply.ConjugatedProduct | extern/eigen/blas/PackedTriangularMatrixVector.h:29-32 | conjugating the matrix and the vector conjugates the product |
| PackedRoundTrip.Repack | extern/eigen/blas/PackedTriangularMatrixVector.h:18-75 | any packed triangle can be packed in the other order |
| PackedRoundTrip.RepackedAt | extern/eigen/blas/PackedTriangularMatrixVector.h:18-75 | both packings denote the same matrix |
| PackedRoundTrip.MultiplyInBothOrders | extern/eigen/blas/PackedTriangularMatrixVector.h:18-75 | the kernel by rows and the kernel by columns, each on the packing of its order, add the same |
| PackedRoundTrip.SameEntriesSameProduct | extern/eigen/blas/PackedTriangularMatrixVector.h:18-75 | storages that denote the same matrix give the same product |
| PackedRoundTrip.SolutionIsUnique | extern/eigen/blas/PackedTriangularSolverVector.h:18-72 | a system with nonzero diagonal has one solution at most |
| PackedRoundTrip.SolvingUndoesMultiplying | extern/eigen/blas/PackedTriangularMatrixVector.h:18-75 | what the product computes from 0 with alpha = 1 has x as its only solution |
| PackedRoundTrip.MultiplyThenSolve | extern/eigen/blas/PackedTriangularSolverVector.h:18-72 | the product computed from 0 with alpha = 1, then solved for in place, is x again |
| PackedRoundTrip.SolveThenMultiply | extern/eigen/blas/PackedTriangularMatrixVector.h:18-75 | the solution found in place, then multiplied, is the right-hand side again |
| Rank2.TermIsSelfadjoint | extern/eigen/blas/Rank2Update.h:15-17 | the update adds a selfadjoint matrix |
| Rank2.TermIsRankTwo | extern/eigen/blas/Rank2Update.h:15-17 | times a vector x, the added matrix is alpha (v'x) u + conj(alpha) (u'x) v |
| Rank2.UpdateDense | extern/eigen/blas/Rank2Update.h:19-31 | the stored triangle gets its terms and nothing else changes |
| Rank2.UpdatePacked | extern/eigen/blas/Rank2Update.h:36-53 | every packed entry gets its term, and the diagonal its real part |
| Rank2.KernelsAgree | extern/eigen/blas/Rank2Update.h:47-49 | an entry comes out alike exactly when it is off the diagonal or was real |
| Rank2.StoragesAgree | extern/eigen/blas/Rank2Update.h:19-53 | both kernels store the same triangle, entry by entry, under the same condition, and the packed diagonal ends real |
| Subsets.FirstIsLeast | extern/eigen/bench/analyze-blocking-sizes.cpp:411-418 | the first subset comes before all others |
| Subsets.LastIsGreatest | extern/eigen/bench/analyze-blocking-sizes.cpp:420-423 | the test for the last subset holds exactly when none comes after |
| Subsets.SuccessorIsImmediate | extern/eigen/bench/analyze-blocking-sizes.cpp:425-442 | nothing comes between a subset and its successor |
| Subsets.MakeFirstSubset | extern/eigen/bench/analyze-blocking-sizes.cpp:411-418 | 0, 1, ..., k - 1 |
| Subsets.IsLastSubset | extern/eigen/bench/analyze-blocking-sizes.cpp:420-423 | true exactly when no subset comes after |
| Subsets.NextSubset | extern/eigen/bench/analyze-blocking-sizes.cpp:425-442 | the array becomes the successor; the assertion of the scan holds |
| Subsets.VisitedExactly | extern/eigen/bench/analyze-blocking-sizes.cpp:411-442 | the enumeration from a subset visits it and the later ones, and nothing else |
| Subsets.VisitsEachSubsetOnce | extern/eigen/bench/analyze-blocking-sizes.cpp:411-442 | from the first subset on, all are visited, each once, in order, and there are as many as the binomial coefficient says |
| SubsetLimits.ComparesChoose | extern/eigen/bench/analyze-blocking-sizes.cpp:447-459 | comparing numerator and denominator is comparing the binomial coefficient with the limit |
| SubsetLimits.NextFits | extern/eigen/bench/analyze-blocking-sizes.cpp:447-459 | the products of the next round fit in 64 bits |
| SubsetLimits.IsNumberOfSubsetsFeasible | extern/eigen/bench/analyze-blocking-sizes.cpp:447-459 | true exactly when there are at most a hundred subsets of every size up to p |
| SubsetLimits.MaxFeasibleSubsetSize | extern/eigen/bench/analyze-blocking-sizes.cpp:461-471 | the largest feasible size short of n, but two whenever there are two |
| Efficiency.CheckAllFilesInSameExactOrder | extern/eigen/bench/analyze-blocking-sizes.cpp:257-295 | accepts exactly the lists of files of the same sizes in the same order |
| Efficiency.EfficiencyOfSubset | extern/eigen/bench/analyze-blocking-sizes.cpp:297-332 | the loops compute the worst product size's best entry's worst file |
| Efficiency.GroupBeats | extern/eigen/bench/analyze-blocking-sizes.cpp:297-332 | a group beats t exactly when for every product size one block size beats t on all its files |
| Efficiency.SubsetValue | extern/eigen/bench/analyze-blocking-sizes.cpp:297-332 | an efficiency is 0, 1 or measured, and between 0 and 1 |
| Efficiency.FewerFilesDoBetter | extern/eigen/bench/analyze-blocking-sizes.cpp:297-332 | part of a group is at least as efficient |
| BestSubsets.BestSubset | extern/eigen/bench/analyze-blocking-sizes.cpp:495-520 | the first best of all k-subsets, or none when all have efficiency 0; the enumeration never runs past the last |
| BestSubsets.BestIsUnique | extern/eigen/bench/analyze-blocking-sizes.cpp:495-520 | there is one such subset, and one such efficiency |
| BestSubsets.IsBestIsBest | extern/eigen/bench/analyze-blocking-sizes.cpp:495-520 | it is the one that the plain recursion over the enumeration finds |
| Partition.Narrow | extern/eigen/bench/analyze-blocking-sizes.cpp:522-527 | the candidates are narrowed in place without reading an overwritten one |
| CandidateSearch.ReadsOwnExactly | extern/eigen/bench/analyze-blocking-sizes.cpp:505-507 | all trials of a size read the candidates' own files exactly when the candidates are the first places of the remainder |
| CandidateSearch.AllReadOwnExactly | extern/eigen/bench/analyze-blocking-sizes.cpp:491-528 | all trials of a search read the candidates' own files exactly when the candidates are the first places at every size that is tried |
| CandidateSearch.SearchesAgree | extern/eigen/bench/analyze-blocking-sizes.cpp:491-532 | if so, the place chosen is the one that reading the candidates' own files leads to |
| NarrowingExample.SearchChoosesOne | extern/eigen/bench/analyze-blocking-sizes.cpp:491-532 | four files for which a narrowed search tries other files than its candidates, and ends at place 1 |
| NarrowingExample.OwnSearchChoosesTwo | extern/eigen/bench/analyze-blocking-sizes.cpp:491-532 | the candidates' own files would have led to place 2 |
| NarrowingExample.ChooseAmongFour | extern/eigen/bench/analyze-blocking-sizes.cpp:486-532 | the modelled loop, on these files, chooses place 1 |
| Partition.ChooseCandidate | extern/eigen/bench/analyze-blocking-sizes.cpp:486-532 | the chosen place is the one that the search leads to: the first place of the candidates that are left, which are narrowed to the first best subset at each size, as the trials read them; it belongs to the first best subset of the largest size of which some subset beats t with the group; if any file of the remainder can join the group, the chosen one can |
| CandidateSearch.SearchIsLeast | extern/eigen/bench/analyze-blocking-sizes.cpp:530-532 | of the candidates left, the least place is chosen |
| Partition.JoinOne | extern/eigen/bench/analyze-blocking-sizes.cpp:486-540 | a file moves from the remainder into the group exactly when some file can join it, and the larger group beats t |
| Partition.FindSubset | extern/eigen/bench/analyze-blocking-sizes.cpp:473-543 | the group and the rest are the remainder; the group is not empty, beats t, and no file of the rest can join it |
| Partition.FindPartition | extern/eigen/bench/analyze-blocking-sizes.cpp:545-566 | a true partition of all files into groups that are not empty, beat t, and take no file of a later group |
| PartitionAction.PartitionBeats | extern/eigen/bench/analyze-blocking-sizes.cpp:400-409 | a partition beats t exactly when all of its groups do, and takes one of finitely many values |
| PartitionAction.SearchPartitions | extern/eigen/bench/analyze-blocking-sizes.cpp:627-647 | every partition beats the one before, so the loop ends, and no search is asked to beat efficiency 1 |
| PartitionAction.ErasingKeepsFrontier | extern/eigen/bench/analyze-blocking-sizes.cpp:649-662 | erasing a partition whose successor has no more groups keeps the undominated ones |
| PartitionAction.DropDominated | extern/eigen/bench/analyze-blocking-sizes.cpp:649-662 | exactly the undominated partitions stay, with more and more groups |
| PartitionAction.FrontierImproves | extern/eigen/bench/analyze-blocking-sizes.cpp:649-662 | of what stays, later partitions are better |
| PartitionAction.FrontierDominates | extern/eigen/bench/analyze-blocking-sizes.cpp:649-662 | every partition tried is matched by one that stays, with no more groups and no less efficiency |
| PartitionAction.Run | extern/eigen/bench/analyze-blocking-sizes.cpp:599-665 | refuses exactly when there are no files or they differ in order; otherwise the undominated partitions |

## Left out

- Text, files, streams, processes and the network: parsing of rules and zones, TZif files, configuration streams, measurements, printing.
- The civil calendar: `date.h` is not part of this model. Days are numbers, and a calendar is a record of functions that the theorems take as a parameter; `TzGregorian` is one such record.
- Rule names are given by their rank in string order.
- Year arithmetic at the ends of `date::year` and integer widths, apart from the 64-bit products of `is_number_of_subsets_feasible`.
- Leap seconds, and the choice of the zone's period that `find_rule` is asked about (`tz.cpp:2610-2672`).
- TzLocalInfo.GetInfoLocal: is about one period of a zone driven by rules, with transitions more than two days apart that change the saving by at most a day, and local times that under each of its savings are instants of the period, not of its last day; the clamping to the ends of the period and the move to the next period (`tz.cpp:2610-2672`) are not modelled.
- TzLocalInfo.FindRuleAnswersLocal: takes the same spaced transitions as a precondition.
- TzFindRule.FindRuleAnswersUtc: takes the increase of successive instants as a precondition, because the day is only a sort key within a month.
- TzTraverse.WalkInYearOrder: says nothing of single-year rules, whose days are rewritten after the last sort.
- TzTransitions.ZoneTable.GetInfoLocal: takes transitions more than two days apart that change the offset by at most a day, which the one-day window of the source presumes.
- `std::sort` is an insertion sort in the model; its users rely on a sorted permutation only. `lower_bound` and `upper_bound` are linear scans.
- The text of section headers: a header contributes its path. `configSection` and `configIndex` filtering, comments, and multi-line text are not modelled.
- CliSections.ConfigReader.ReadLines: option names are assumed to differ from "++" and "--", which the source would take for section events.
- CliRoundTrip.RoundTrip: is about the default array brackets, separator and quotes; binary escapes are a function parameter, and printable strings never use them.
- CSR: the final resizing of the buffers and the lookup of one coefficient in `setrand_scipy`.
- Floating point: scalars and efficiencies are exact. The kernels' vectorised expressions are loops or sums over slices.
- Divisions by a zero diagonal entry, which the solvers do not guard against: `Solvable` is a precondition.
- The progress messages of the partition search, and the other actions of the same program.
