# Terminal menu selection and core collection helpers, in Dafny

This project models two parts of the VariableIrony library.

**The terminal menu engine** (`Terminal/`). A `Menu` is a tree of `MenuItem`s
plus one `LabelSequence` per nesting level. Each level uses either letters or
numbers. `Choose` does the following:

- it computes the depth of the tree;
- it takes that many label sequences;
- it builds one anchored, case-insensitive pattern with one group per level;
- it prints the tree, labelling the k-th child at level d with the k-th label
  of sequence d;
- it reads a line and, when the line matches, walks the tree one group per
  level until it reaches a childless item.

A line that does not match asks again, and so does an index past a node's
children.

The model covers these files:

- `labels.dfy`, `alpha_labels.dfy`, `numeric_labels.dfy`: the two label
  alphabets, their patterns and their parse functions, with `int.Parse`
  written out.
- `patterns.dfy`: the composite pattern and what matching it yields.
- `menu_item.dfy`: the tree and its depth.
- `menu.dfy`: `Display`, the walk and `Choose`. These are methods proved
  against functions.
- `menu_properties.dfy`: what the engine guarantees.
- `menu_example.dfy`: a worked two-level menu.

**Collection helpers** (`Core/`):

- `enumerable.dfy` models `IEnumerableExtensions`.
- `dictionary.dfy` models `IDictionaryExtensions`. The dictionary is a class
  whose entries `GetOrAdd` updates in place.
- `list.dfy` models `IListExtensions`.

Modelling conventions:

- A .NET exception becomes `Failure(e)` of a `Result`.
- A reference that may be null becomes an `Option`.
- `default(T)` is passed in explicitly as `dflt`.

## Behaviour worth knowing

The model follows the code. In each of these cases, the code does something
a user of the menu might not expect.

- A childless item has depth 1, not 0 (Terminal/Menu.cs:27). A menu whose
  root has no children still builds a one-group pattern. The user must type
  one label-shaped group, and the line "" is asked again
  (`MenuProperties.ChildlessRootNeedsOneGroup`).
- Letter labels follow position, not the items' texts: the first child is
  "a", the second "b", and so on. In the two-level menu root → [X → [X1, X2],
  Y → [Y1]], "a1" chooses X1 and "b1" chooses Y1. "x1" asks again, because
  "x" is the 24th label (`MenuExample`).
- Upper-case letters are not accepted, although the pattern ignores case.
  The letter parse is an exact, case-sensitive comparison
  (Terminal/AlphaLabelSequence.cs:29). An upper-case label passes the match,
  then parses past every child, so the line is asked again
  (`MenuProperties.UpperCaseLetterAsksAgain`).
- Too few label sequences are not reported as a configuration error.
  `Display` indexes past the list of sequences and throws
  `ArgumentOutOfRangeException` before the prompt
  (`MenuProperties.TooFewLabelsThrows`).
- A zero-padded number is not rejected. Only the upper bound of a child index
  is checked. "01" parses like "1" although no label is written that way
  (`NumericLabels.ZeroPaddedNotALabel`). A group of zeros parses to -1, and
  indexing with it throws instead of asking again
  (`MenuProperties.ZeroIndexThrows`).

## Model

| member | source | states |
|---|---|---|
| Wrappers.Wrap32 | Core/IListExtensions.cs:24 | unchecked `int` arithmetic: the result lies in the Int32 range, differs from its argument by a multiple of 2^32, and equals the argument when that is already in range |
| NumericLabels.ToDecimal | Terminal/NumericLabelSequence.cs:14 | `n.ToString()` is a non-empty string of decimal digits, and for n >= 1 it has no leading zero |
| NumericLabels.GetLabels | Terminal/NumericLabelSequence.cs:12-15 | the sequence yields exactly 999999999 labels |
| NumericLabels.ParseInt32 | Terminal/NumericLabelSequence.cs:19 | `int.Parse` either succeeds with a value in the Int32 range or fails with `FormatException` or `OverflowException` only |
| NumericLabels.DigitsValueOfDecimal | Terminal/NumericLabelSequence.cs:14 | reading back the decimal form of n gives n |
| NumericLabels.ParseDigits | Terminal/NumericLabelSequence.cs:19 | a non-empty digit string parses to its value, or overflows exactly when the value exceeds Int32.MaxValue |
| NumericLabels.ParseLabelRoundTrip | Terminal/NumericLabelSequence.cs:12-20 | `ParseLabel(GetLabels()[i]) == i` for every i below 999999999 |
| NumericLabels.LabelsMatchPattern | Terminal/NumericLabelSequence.cs:10-15 | every label is 1 to 9 ASCII digits, so it matches `\d{1,9}` |
| NumericLabels.ParsePatternString | Terminal/NumericLabelSequence.cs:10-20 | every string of 1 to 9 digits parses without error to its value minus 1, which lies in [-1, 999999998] |
| NumericLabels.NineDigitsBound | Terminal/NumericLabelSequence.cs:10 | a group of at most nine digits is worth less than 10^9, so it never overflows `int` |
| NumericLabels.ParseZeroPadded | Terminal/NumericLabelSequence.cs:17-20 | strings that match but are not labels still parse: leading zeros are ignored, so "0" gives -1 and "007" gives 6 |
| NumericLabels.ZeroPaddedNotALabel | Terminal/NumericLabelSequence.cs:14-19 | neither "0" nor any zero-padded string is among the labels, although each of them parses |
| AlphaLabels.Letter | Terminal/AlphaLabelSequence.cs:8 | the k-th alphabet character is a lower-case letter |
| AlphaLabels.Repeat | Terminal/AlphaLabelSequence.cs:22 | `new string(c, n)` has length n and every character equal to c |
| AlphaLabels.BlocksAt | Terminal/AlphaLabelSequence.cs:18-24 | the nested loops from length L on yield 26 labels per remaining length, and the label at each position is the expected letter repeated the expected number of times |
| AlphaLabels.Label | Terminal/AlphaLabelSequence.cs:18-24 | every label is non-empty; its shape, one letter repeated, is proved in `LabelClosedForm` |
| AlphaLabels.LabelClosedForm | Terminal/AlphaLabelSequence.cs:18-24 | label i is letter i mod 26 repeated i/26+1 times |
| AlphaLabels.GetLabels | Terminal/AlphaLabelSequence.cs:16-25 | the generator yields 234 labels |
| AlphaLabels.GeneratorOrder | Terminal/AlphaLabelSequence.cs:18-24 | the nested loops from length L on yield exactly the labels from position (L-1)·26 on, in the same order; from length 1 they yield them all |
| AlphaLabels.LabelAt | Terminal/AlphaLabelSequence.cs:16-25 | there are 234 labels, and the label at (L-1)·26+k is letter k repeated L times |
| AlphaLabels.LabelIndex | Terminal/AlphaLabelSequence.cs:16-25 | label i is letter i mod 26 repeated i/26+1 times |
| AlphaLabels.LabelsDistinct | Terminal/AlphaLabelSequence.cs:16-25 | all 234 labels are pairwise distinct |
| AlphaLabels.LabelsAreRepeatedLetters | Terminal/AlphaLabelSequence.cs:16-25 | a string is a label exactly when it is one lower-case letter repeated 1 to 9 times |
| AlphaLabels.CountUntil | Terminal/AlphaLabelSequence.cs:29 | `TakeWhile(l => l != label).Count()` is the position of the first equal label, or the length when there is none |
| AlphaLabels.ParseLabel | Terminal/AlphaLabelSequence.cs:27-30 | the result lies in [0, 234] |
| AlphaLabels.ParseLabelRoundTrip | Terminal/AlphaLabelSequence.cs:27-30 | `ParseLabel(GetLabels()[i]) == i` for every i below 234 |
| AlphaLabels.ParseLabelNotALabel | Terminal/AlphaLabelSequence.cs:29 | the parse returns 234 exactly for strings that are not labels, including "ab" and upper-case "A" |
| AlphaLabels.LabelsMatchPattern | Terminal/AlphaLabelSequence.cs:11-25 | every label is 1 to 9 lower-case letters, so it matches `[a-z]{1,9}` |
| Labels.LabelSequence.GetLabels | Terminal/LabelSequence.cs:8 | each sequence yields as many labels as it counts, and every enumeration yields the same labels |
| Labels.ParseLabelRoundTrip | Terminal/LabelSequence.cs:8-9 | for both sequences the parse inverts the enumeration |
| Labels.LabelsMatchPattern | Terminal/LabelSequence.cs:7-8 | for both sequences every label matches the sequence's own pattern |
| Labels.ParsePatternString | Terminal/LabelSequence.cs:9 | any group matching a sequence's pattern parses without error to a value in [-1, Count]; letter groups never parse below 0 |
| Labels.ClassesDisjoint | Terminal/Menu.cs:37 | no character is both a letter and a digit under the case-insensitive pattern |
| Patterns.PatternHasNoGroup | Terminal/LabelSequence.cs:7 | a label pattern contains no '(', so it opens no group of its own |
| Patterns.CompositePattern | Terminal/Menu.cs:37 | building the pattern fails (`Aggregate` on an empty list) exactly when there are no sequences |
| Patterns.GroupsCount | Terminal/Menu.cs:37 | the joined groups open exactly one group per sequence |
| Patterns.CompositePatternGroups | Terminal/Menu.cs:37 | the composite pattern is anchored at both ends and has one capturing group per sequence |
| Patterns.Split | Terminal/Menu.cs:47-48 | a successful match reads the line as one label-shaped group per sequence, joined without separators |
| Patterns.SplitComplete | Terminal/Menu.cs:47-48 | the match succeeds whenever any such reading of the line exists |
| Patterns.SingleGroupSplit | Terminal/Menu.cs:37-48 | with one sequence, a line matches exactly when it is one label-shaped group, and that group is the whole line |
| Patterns.SplitUnique | Terminal/Menu.cs:37-48 | when neighbouring levels alternate between letters and digits, the groups the match returns are exactly the groups that were joined |
| Patterns.AdjacentLetterGroupsAreAmbiguous | Terminal/Menu.cs:37 | two adjacent letter levels are ambiguous: "aaa" can be read as "a"+"aa", but the greedy engine returns "aa"+"a" |
| MenuItems.NewItem | Terminal/MenuItem.cs:4-7 | a new item carries its text and state and has no children |
| MenuItems.Depth | Terminal/Menu.cs:25-28 | the depth is at least 1 |
| MenuItems.MaxDepthFromIsMax | Terminal/Menu.cs:27 | `Select(GetDepth).DefaultIfEmpty().Max()` is the largest child depth, or 0 without children |
| MenuItems.DepthIsOnePlusMax | Terminal/Menu.cs:25-28 | a childless item has depth 1; otherwise the depth is one more than the deepest child's |
| MenuItems.PathDepth | Terminal/Menu.cs:25-28 | every path from the item, plus the depth where it ends, fits within the item's depth |
| MenuItems.DeepestPath | Terminal/Menu.cs:25-28 | some path to a childless item has length depth - 1, so the depth counts the nodes on the longest path |
| Menus.Sequences | Terminal/Menu.cs:36 | `Labels.Take(GetDepth(this))` is the first min(\|Labels\|, depth) sequences |
| Menus.RowLine | Terminal/Menu.cs:19 | a printed row is the indentation (depth spaces), then the label, then ": " and the text, and nothing else |
| Menus.DisplayFromStep | Terminal/Menu.cs:16-20 | one pass of the `foreach`: child k's row, then its subtree's rows, then the rest; an exception below child k ends the display |
| Menus.Display | Terminal/Menu.cs:11-23 | the recursive display loop produces exactly the rows (or the exception) of the depth-first specification |
| Menus.Select | Terminal/Menu.cs:50-59 | a walk that reaches a node stops at a childless node |
| Menus.Walk | Terminal/Menu.cs:50-59 | the `while (null != result)` loop ends where the recursive walk specification ends |
| Menus.ChooseOnce | Terminal/Menu.cs:41-64 | one pass of the loop body (display, read, match, walk) ends as the specification of one pass says |
| Menus.Choose | Terminal/Menu.cs:34-68 | the retry loop over the input lines returns what the specification of `Choose` returns |
| Menus.ChooseState | Terminal/Menu.cs:30-32 | `Choose<T>` succeeds exactly when `Choose` does, with the chosen item's state, and otherwise fails with the same exception |
| MenuProperties.DisplayNeedsDepthSequences | Terminal/Menu.cs:11-23 | displaying succeeds exactly when there is a sequence for every level that holds items (depth + Depth - 1 <= \|sequences\|) |
| MenuProperties.DisplayFromNeedsDepthSequences | Terminal/Menu.cs:13-21 | displaying the children from k on succeeds exactly when each of them fits below the level |
| MenuProperties.DisplayFailsOutOfRange | Terminal/Menu.cs:15 | a failed display always fails by `sequences[depth]` throwing `ArgumentOutOfRangeException` |
| MenuProperties.DisplayFromFailsOutOfRange | Terminal/Menu.cs:15-20 | the same, for the rows of the children from k on |
| MenuProperties.PathFits | Terminal/Menu.cs:15-18 | along a valid path, each step is a position within its level's label sequence |
| MenuProperties.KeysAlongCons | Terminal/Menu.cs:19-20 | the labels along a path are the first step's label, then the labels along the rest of the path one level deeper |
| MenuProperties.RowAtCons | Terminal/Menu.cs:20 | the row of a node below child j is the same row whether it is reached from `t` or from child j |
| MenuProperties.KeysAlong | Terminal/Menu.cs:15-19 | the labels shown along a path, one per step, each within its level's sequence |
| MenuProperties.DisplayFromHasChild | Terminal/Menu.cs:16-20 | child k gets label k of its level's sequence, and all the rows of its subtree are shown too |
| MenuProperties.DisplayShowsEveryNode | Terminal/Menu.cs:11-23 | every node below the root is shown on a row indented by its level, labelled with its position's label in that level's sequence (a fresh enumeration per sibling list), with its text |
| MenuProperties.ChildRowIsNodeRow | Terminal/Menu.cs:19 | the row written for child j is the row of the one-step path [j] |
| MenuProperties.DescendantRowIsNodeRow | Terminal/Menu.cs:20 | a row of a child's subtree is the row of a path through that child |
| MenuProperties.DisplayShowsOnlyNodes | Terminal/Menu.cs:11-23 | every row shown is the row of some node |
| MenuProperties.DisplayFromShowsOnlyNodes | Terminal/Menu.cs:16-21 | the same, for the rows of the children from k on |
| MenuProperties.KeysSelectTheirLeaf | Terminal/Menu.cs:50-59 | groups equal to the labels shown along a path to a childless node walk to exactly that node, whatever follows them |
| MenuProperties.KeysGroupsStep | Terminal/Menu.cs:56 | groups holding the labels along a path hold the first step's label, then the labels along the rest of it |
| MenuProperties.SelectStep | Terminal/Menu.cs:54-58 | at a node with children, a group that parses to child k's index moves the walk to child k at the next level |
| MenuProperties.ParsesToCons | Terminal/Menu.cs:56 | parsing one more group in front extends the parsed path by one step |
| MenuProperties.SelectFollowsParsedGroups | Terminal/Menu.cs:50-59 | a reached node is at the end of a path shorter than the depth, whose steps are the parsed groups |
| MenuProperties.SelectIgnoresLaterGroups | Terminal/Menu.cs:52-58 | the walk reads at most depth - 1 groups; later groups never change the outcome |
| MenuProperties.ZeroIndexThrows | Terminal/Menu.cs:56-57 | a numeric group of zeros gives index -1, and `Items[-1]` throws instead of asking again |
| MenuProperties.UpperCaseLetterAsksAgain | Terminal/Menu.cs:37-57 | an upper-case letter matches the case-insensitive pattern but parses past every child, so the line is asked again |
| MenuProperties.ChosenIsLeaf | Terminal/Menu.cs:39-66 | whatever the loop returns is a childless node of the tree, never null |
| MenuProperties.ChooseReturnsLeaf | Terminal/Menu.cs:34-68 | `Choose` returns only childless nodes of the menu's tree |
| MenuProperties.NoLabelsThrows | Terminal/Menu.cs:37 | an empty `Labels` throws `InvalidOperationException`, whatever the input |
| MenuProperties.TooFewLabelsThrows | Terminal/Menu.cs:36-42 | fewer sequences than the levels holding items throws `ArgumentOutOfRangeException` on the first display, whatever the input |
| MenuProperties.PatternDemandsAnUnreadGroup | Terminal/Menu.cs:36-58 | with at least depth sequences, a chosen line holds depth groups (so at least depth characters), and its last group makes no difference to the walk |
| MenuProperties.SplitLength | Terminal/Menu.cs:37 | every group holds at least one character |
| MenuProperties.ChildlessRootNeedsOneGroup | Terminal/Menu.cs:36-55 | a childless root is chosen only for a line that is one label-shaped group of the first sequence; any other line is asked again |
| MenuProperties.TypingShownLabelsChoosesLeaf | Terminal/Menu.cs:11-59 | round trip: with alternating letter and digit levels, typing the shown labels along a path to a childless node (padded with any label-shaped groups) chooses that node on the first line |
| MenuProperties.KeysParseToPath | Terminal/Menu.cs:15-19 | every label shown along a path matches its level's pattern, and the parse of line 56 turns it back into the child index taken at that step |
| MenuExample.LetterLabels | Terminal/AlphaLabelSequence.cs:16-25 | the letter labels at 0, 1 and 23 are "a", "b" and "x" |
| MenuExample.NumberLabels | Terminal/NumericLabelSequence.cs:12-15 | the number labels at 0, 1 and 8 are "1", "2" and "9" |
| MenuExample.TwoLevelShape | Terminal/Menu.cs:25-37 | the example tree has depth 3, uses both sequences, and fits them |
| MenuExample.SplitsAs | Terminal/Menu.cs:37-47 | letters followed by digits split into exactly those two groups |
| MenuExample.IterateLabels | Terminal/Menu.cs:39-66 | one pass on a letter label plus a number label chooses the matching grandchild, or asks again when either position is past the children |
| MenuExample.ChooseRuns | Terminal/Menu.cs:34-37 | choosing in the example runs the loop with both sequences |
| MenuExample.TypingLabelsChooses | Terminal/Menu.cs:34-68 | "a1" chooses X1 and "b1" chooses Y1 |
| MenuExample.PositionsPastTheChildrenAskAgain | Terminal/Menu.cs:57-66 | "x1" and "a9" are asked again, and a following "a2" chooses X2 |
| MenuExample.InputEndsAfterRetry | Terminal/Menu.cs:46-66 | "b2" is asked again, and when input then ends, `Regex.Match(null)` throws `ArgumentNullException` |
| Enumerables.Append | Core/IEnumerableExtensions.cs:18-25 | a null source throws; otherwise the result is the source followed by the value |
| Enumerables.Prepend | Core/IEnumerableExtensions.cs:194-201 | a null source throws; otherwise the result is the value followed by the source |
| Enumerables.AppendPrependCommute | Core/IEnumerableExtensions.cs:24 | appending and prepending commute, and each adds exactly one occurrence of its element |
| Enumerables.EmptyIfNull | Core/IEnumerableExtensions.cs:662-665 | a null source reads as the empty sequence; any other source is returned unchanged |
| Enumerables.TryFirst | Core/IEnumerableExtensions.cs:503-528 | a null source throws; otherwise the result is found exactly when the source is non-empty, with the first element, else with the default |
| Enumerables.FirstIndexWhere | Core/IEnumerableExtensions.cs:545-552 | the position of the first element satisfying the predicate, or the length when there is none |
| Enumerables.FirstWhereIsEarliestMatch | Core/IEnumerableExtensions.cs:535-555 | the predicate form finds an element exactly when one satisfies the predicate, and then it finds the earliest such element; otherwise it gives the default |
| Enumerables.TryFirstWhere | Core/IEnumerableExtensions.cs:535-555 | a null source or predicate throws; otherwise the early-exit loop returns the earliest match |
| Enumerables.First | Core/IEnumerableExtensions.cs:56-64 | succeeds exactly on a non-empty source, with its first element; an empty source throws `InvalidOperationException` with the given message |
| Enumerables.FirstMatching | Core/IEnumerableExtensions.cs:70-78 | returns the earliest element satisfying the predicate, or throws `InvalidOperationException` with the message when there is none |
| Enumerables.Only | Core/IEnumerableExtensions.cs:561-593 | the answer for a sequence that should hold one element: found exactly when there is exactly one, else the default |
| Enumerables.TrySingle | Core/IEnumerableExtensions.cs:561-593 | a null source throws; otherwise found exactly when the source has exactly one element, and then with that element |
| Enumerables.Where | Core/IEnumerableExtensions.cs:612 | the filtered sequence is no longer than the source, and all its elements satisfy the predicate |
| Enumerables.WhereMembers | Core/IEnumerableExtensions.cs:612 | an element is kept exactly when it occurs in the source and satisfies the predicate |
| Enumerables.WhereEmpty | Core/IEnumerableExtensions.cs:612 | nothing is kept exactly when no element satisfies the predicate |
| Enumerables.WhereSingle | Core/IEnumerableExtensions.cs:610-622 | exactly one element is kept exactly when exactly one position satisfies the predicate |
| Enumerables.WhereConcat | Core/IEnumerableExtensions.cs:612 | filtering a concatenation filters each part in order, so the matches seen in a prefix are the first matches of the whole |
| Enumerables.TrySingleWhere | Core/IEnumerableExtensions.cs:600-623 | a null source or predicate throws; otherwise the loop tests elements in order, gives up at the second match without testing the rest, and finds exactly the only match of the whole source or gives the default |
| Enumerables.TrySingleWhereFindsUniqueMatch | Core/IEnumerableExtensions.cs:600-623 | the predicate form finds an element exactly when one position satisfies the predicate, and then it is that element |
| Enumerables.Single | Core/IEnumerableExtensions.cs:251-259 | succeeds exactly when the source has exactly one element, with that element; otherwise throws `InvalidOperationException` with the message |
| Enumerables.SingleMatching | Core/IEnumerableExtensions.cs:265-273 | succeeds exactly when one position satisfies the predicate, with that element; otherwise throws `InvalidOperationException` with the message |
| Enumerables.Occurrences | Core/IEnumerableExtensions.cs:233-235 | the count dictionary maps each element of the first sequence to its number of occurrences |
| Enumerables.TakeOff | Core/IEnumerableExtensions.cs:238-243 | decrementing an element's count keeps the counts equal to the first sequence's occurrences minus those taken so far |
| Enumerables.ExcessMeansUnequal | Core/IEnumerableExtensions.cs:238-242 | a negative count shows that the second sequence holds that element more often, so the multisets differ |
| Enumerables.ZeroCountsMeanEqual | Core/IEnumerableExtensions.cs:245 | after the second sequence is consumed, all counts are zero exactly when the multisets agree |
| Enumerables.SequenceEqualUnordered | Core/IEnumerableExtensions.cs:219-246 | null arguments throw; otherwise the result is true exactly when multiset(first) == multiset(second) |
| Enumerables.ToSet | Core/IEnumerableExtensions.cs:481-497 | null arguments throw; otherwise the set holds exactly the images of the source's elements |
| Enumerables.ToSetOfElements | Core/IEnumerableExtensions.cs:444-447 | the set holds exactly the source's elements |
| Enumerables.PagesPartition | Core/IEnumerableExtensions.cs:678-690 | the pages concatenate to the source; each page is non-empty and holds at most pageSize elements; every page except the last holds exactly pageSize |
| Enumerables.PagesFullPage | Core/IEnumerableExtensions.cs:683-686 | a page that reaches `pageSize` is handed out on its own, and paging goes on with the rest |
| Enumerables.PageImpl | Core/IEnumerableExtensions.cs:678-690 | the loop that fills and hands out fresh pages yields exactly the pages of the specification |
| Enumerables.Page | Core/IEnumerableExtensions.cs:667-676 | a null source throws `ArgumentNullException`; pageSize <= 0 throws `ArgumentOutOfRangeException`; otherwise the result is the pages |
| Enumerables.TakeUntil | Core/IEnumerableExtensions.cs:700-702 | the longest prefix in which no element satisfies the predicate |
| Enumerables.TakeUntilStopsAtFirstMatch | Core/IEnumerableExtensions.cs:700-702 | `TakeUntil` stops exactly where `TryFirst(predicate)` would find |
| Enumerables.TakeUntilAsWritten | Core/IEnumerableExtensions.cs:700-702 | as written: a null source throws `ArgumentNullException`; with a predicate the result is the prefix |
| Enumerables.TakeUntilChecked | Core/IEnumerableExtensions.cs:692-702 | as its doc comment states: the call fails exactly when the source or the predicate is null, with that argument's name |
| Enumerables.TakeUntilNullPredicate | Core/IEnumerableExtensions.cs:699-702 | with a null predicate, the code returns an empty result for an empty source and throws `NullReferenceException` for any other source, where its doc comment promises `ArgumentNullException` |
| Dictionaries.Lookup | Core/IDictionaryExtensions.cs:103 | the value for a present key, else the default |
| Dictionaries.GetOrAddEntries | Core/IDictionaryExtensions.cs:22-38 | a present key returns its value and leaves the entries unchanged; an absent key with a null factory throws; otherwise the key is added with `factory(key)`, which is returned, and no other entry changes |
| Dictionaries.GetOrAddIdempotent | Core/IDictionaryExtensions.cs:28-37 | a second `GetOrAdd` of the same key, with any factory (even null), returns the same value and changes nothing |
| Dictionaries.GetOrAddThenLookup | Core/IDictionaryExtensions.cs:22-38 | after `GetOrAdd`, the key is present with the returned value |
| Dictionaries.GetOrAdd | Core/IDictionaryExtensions.cs:22-38 | a null dictionary throws; otherwise the result and the dictionary's new entries are those of the specification, and a failure changes nothing |
| Dictionaries.GetOrAddValue | Core/IDictionaryExtensions.cs:53-66 | the same with a fixed value, so it never fails on a non-null dictionary |
| Dictionaries.TryGetValue | Core/IDictionaryExtensions.cs:79-148 | a null dictionary throws; otherwise the result is the key's value, or the default when the key is absent; the dictionary is only read |
| Lists.Scan | Core/IListExtensions.cs:24-32 | the result is the first index in the window whose element equals the item, or -1 when no element in the window does; the indexer fails only when the window leaves the list |
| Lists.ScanWithinList | Core/IListExtensions.cs:22-33 | a window inside the list never fails, and gives -1 exactly when no element in it equals the item |
| Lists.IndexOfRange | Core/IListExtensions.cs:22-33 | the loop with bound `startIndex + count` (unchecked) returns what the scan specification returns |
| Lists.IndexOfRangeInsideList | Core/IListExtensions.cs:22-33 | for a window inside the list, the result is the smallest matching index, or -1 exactly when nothing in the window matches |
| Lists.OverflowingWindowFindsNothing | Core/IListExtensions.cs:24-25 | when `startIndex + count` overflows, the bound wraps below the start and a match at the start is not found |
| Lists.IndexOf | Core/IListExtensions.cs:7-10 | over the whole list with the default comparer: -1 exactly when the item is absent, otherwise its first position |
| Lists.IndexOfWith | Core/IListExtensions.cs:12-15 | over the whole list with a comparer: -1 exactly when nothing matches, otherwise the first matching position |
| Lists.IndexOfIn | Core/IListExtensions.cs:17-20 | a window with the default comparer behaves as the scan specification says |

## Left out

- Console I/O (`Console.Clear`, `WriteLine`, `Write`, `ReadLine`) is not modelled directly. `Display` yields its rows as data, and `RowLine` gives the text of one row. The user's input is a finite list of lines, and its end stands for `ReadLine` returning null. Output written before an exception is not modelled.
- The regular expression engine is modelled only for the patterns `Choose` builds: anchored groups, each of one character class repeated 1 to 9 times, matched with backtracking that tries longer groups first.
- The pattern's character classes are modelled on ASCII only. With `RegexOptions.IgnoreCase`, .NET `[a-z]` also admits a few non-ASCII letters (the Kelvin sign, for example), and `\d` admits every Unicode decimal digit. `int.Parse` would reject those digits with `FormatException`.
- `int.Parse` is modelled with the current culture taken as invariant. Its handling of trailing null characters is not modelled.
- Menus.Display: requires every sibling list to be no longer than its level's label sequence (`LabelsFit`). Past the end of a sequence, what the enumerator's `Current` returns is up to the framework and is not modelled.
- A null `Labels`, and `Labels` as a lazily re-enumerated `IEnumerable`, are not modelled. The model takes a list.
- `MenuItem` is an immutable tree value. Adding children to a shared `Items` list in place, aliasing, and cycles are not modelled.
- Menus.ChooseState: the cast in `Choose<T>` cannot fail in the model, because the state already has the requested type. An `InvalidCastException` is not modelled.
- Menus.Choose: the model takes a finite list of input lines. A console that never ends and a user who never picks a node are not modelled.
- The format-string overloads of `First` and `Single` (Core/IEnumerableExtensions.cs:84-107, 279-302) are not separate members. They behave as the message overloads once `String.Format(format, args)` has produced the message. A `FormatException` from a bad format is not modelled.
- Custom equality comparers are not modelled for `SequenceEqualUnordered`, `ToSet` and the `ToDictionary` inside `SequenceEqualUnordered`. Only the default comparer, Dafny's `==`, is modelled. `IndexOf` takes its comparer as a function, so a null comparer is not modelled there.
- Null keys (`ArgumentNullException` for `key`) are not modelled, because Dafny values cannot be null.
- A value factory that changes the dictionary itself (making `Add` throw) is not modelled, because a factory is a pure function here.
- The three `TryGetValue` overloads with a default behave identically, so they are one member. The one-argument form passes `default(TValue)` as `dflt`.
- A null list passed to `IndexOf` is not modelled (`NullReferenceException`). The indexer's exception is modelled as `List<T>`'s `ArgumentOutOfRangeException`; an array would throw `IndexOutOfRangeException`.
- Deferred execution is not modelled. `Append`, `Prepend`, `Page` and `TakeUntil` return the sequence their enumeration would yield. Eager argument checks stay eager, and repeated enumeration is not modelled.
- `Zip`, `Sum`, `Sort`, `Join`, `LeftJoin`, `Group`, `OrderBy`, `AsInner`/`AsOuter`, the `Linq`, `ObjectModel` and `ServiceModel` folders, `IQueryableExtensions`, `Comparer`, `IdentifyFunction` and `Meta` are not part of this model.

## Findings

| source | as written | input that shows it | evidently intended | confidence | as-written member | corrected member |
|---|---|---|---|---|---|---|
| Core/IEnumerableExtensions.cs:699-702 | `TakeUntil` passes `x => !predicate(x)` to `TakeWhile` without checking `predicate`, so a null predicate is only dereferenced when the first element is examined | `TakeUntil(new[] { x }, null)` enumerated throws `NullReferenceException`; `TakeUntil(new int[0], null)` yields an empty sequence | `ArgumentNullException` for a null predicate, as the documentation comment states | high; not executed | Enumerables.TakeUntilAsWritten | Enumerables.TakeUntilChecked |
