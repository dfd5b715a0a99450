# doppel: a verified model of the name-matching core

doppel finds files in a directory whose names say they are versions of one
another. It clusters files whose base names share a long enough prefix. It can
narrow the files to those whose stem ends in a user-given suffix pattern, plus
the unsuffixed files those suffixes point back to. Then it lets the user pick
two files of a group in a full-screen selector and shows their diff. A
line-oriented interface also exists (`interactive.go`), but the program's
`run` never starts it; only its pair generation, pair map and file-number
check are modelled here.

This project models, in Dafny, the logic that decides which files belong
together and how the user moves through them:

- `Paths` (`paths.dfy`): the base filename, the final extension and the
  stem of a path.
- `UnionFind` (`union_find.dfy`): the parent array of `matcher.go`. It is an
  acyclic forest witnessed by a `level` sequence. `FindRoot` uses path
  compression, and a link hangs one root under another.
- `Matcher` (`matcher.go`): `commonPrefix` and `Group`. The groups are proved
  to be exactly the connected components, of two or more files, of the
  relation "base names share at least `minPrefixLength` bytes".
- `DateHeuristics` (`main.go`, `isLikelyDatePattern`): the three date rules,
  stated against position-based definitions of the `-\d+$` and `-\d+`
  regular expressions.
- `SuffixFilter` (`main.go`, `filterFilesBySuffix`): acceptance of a file by
  its suffix match, re-inclusion of base files, removal of duplicates, and
  output order.
- `Options` (`main.go`, `main`): the `minPrefix >= 1` check and the
  `$`-anchoring of the suffix pattern.
- `Pairs` (`interactive.go`): pair generation in row-major order,
  `findFileIndex`, the pair map, and pair selection by two file numbers.
- `Tui` (`tui.go`): the four-state selection machine, driven by key names.
- `Wrappers`: `Option` and `Result`.

Go's `[]string` is `seq<string>`. Strings are byte strings. Go maps that only
record membership become sets, or a sequence with a no-duplicates invariant.
The regular-expression engine, the diff tool and the terminal are parameters
of the model, not parts of it.

## Model

| member | source | states |
|---|---|---|
| Paths.Base | matcher.go:31-33 | the base filename is the tail of the path that holds no '/'; when it is not the whole path, a '/' comes right before it |
| Paths.BaseIgnoresDirectory | matcher.go:25-33 | for any directory and any name without '/', the base of `dir + "/" + name` is `name`, so only file names take part in matching |
| Paths.Ext | main.go:223 | the extension is a suffix of the name; it is empty exactly when the name has no '.', and otherwise starts at a '.' and holds no further '.' |
| Paths.Stem | main.go:222-224 | the stem followed by the extension gives back the base filename, and the stem holds no '/' |
| UnionFind.Singletons | matcher.go:39-42 | the initial array is an acyclic forest in which every element is its own root |
| UnionFind.FindRoot | matcher.go:78-83 | returns the root of x, which is a fixed point of the array; path compression keeps the array an acyclic forest and changes no element's root |
| UnionFind.RedirectToRootsKeepsRoots | matcher.go:80 | pointing any elements directly at their roots leaves the root of every element unchanged |
| UnionFind.Link | matcher.go:52-54 | hanging root rj under a different root ri keeps the array an acyclic forest; the elements rooted at rj become rooted at ri, and every other element keeps its root |
| Matcher.CommonPrefix | matcher.go:86-96 | the result is a prefix of both strings and is maximal: at its length one string ends or the next bytes differ; it is the string itself for equal strings and empty when either string is empty |
| Matcher.MatchLength | matcher.go:87-94 | scanning from an agreed prefix stops at a length where both strings agree up to it and then one ends or the two bytes differ; CommonPrefix is built on it |
| Matcher.CommonPrefixReaches | matcher.go:47-48 | the common prefix is at least k bytes long exactly when the two names agree on their first k bytes |
| Matcher.CommonPrefixSymmetric | matcher.go:86-96 | the common prefix has the same length whichever string comes first, so the merge test is symmetric |
| Matcher.ConnectedSymmetric | matcher.go:45-57 | a chain of linked files from x to y gives one from y to x |
| Matcher.ConnectedTransitive | matcher.go:45-57 | chains from x to y and from y to z give a chain from x to z, so group membership is transitive |
| Matcher.MergeKeepsSound | matcher.go:48-54 | merging the classes of two linked files keeps every class made of connected files |
| Matcher.ChainKeepsTag | matcher.go:45-57 | once every linked pair has been merged, the two ends of any chain of linked files are in one class |
| Matcher.MergePair | matcher.go:47-55 | one step of the pair loop keeps the parent array an acyclic forest that tracks the classes, keeps every class connected, and leaves every linked pair up to (i, j) merged |
| Matcher.ResolveRoots | matcher.go:39-64 | after all pairs are processed, two files have the same root exactly when a chain of linked files joins them |
| Matcher.Members | matcher.go:61-64 | the files collected under one root are exactly the input indices with that root, in increasing order |
| Matcher.Leaders | matcher.go:66-72 | the group leaders are exactly the first files of the classes with two or more files, in increasing order |
| Matcher.CollectGroups | matcher.go:59-72 | one group per leader, holding the members of the leader's class; CollectedAreComponents shows the groups are the connected components of two or more files |
| Matcher.CollectedGroupsDisjoint | matcher.go:60-64 | no file lies in two collected groups, because each index gets exactly one root |
| Matcher.SameTagCollected | matcher.go:60-72 | two distinct files with the same root lie together in one collected group |
| Matcher.CollectedAreComponents | matcher.go:59-72 | collecting the resolved roots gives exactly the connected components of two or more files |
| Matcher.Group | matcher.go:20-75 | fewer than two files give no groups; otherwise every group has at least two files, the groups are disjoint, every group is connected, any two connected distinct files share a group, and each group lists the input paths of its indices in input order |
| Matcher.BaseNames | matcher.go:31-34 | clustering sees the base filename of every path and nothing else |
| Matcher.BelowThresholdNoGroups | matcher.go:48 | when no two distinct base names share `minPrefixLength` bytes, no group is formed |
| DateHeuristics.LeadingDigits | main.go:168 | the result is the length of the maximal run of ASCII digits at the start of the string |
| DateHeuristics.TrailingDigits | main.go:167 | the result is the length of the maximal run of ASCII digits at the end of the string |
| DateHeuristics.EndsInHyphenDigits | main.go:167-177 | the `-\d+$` test of the first rule, written with TrailingDigits; its meaning, a '-' followed by digits up to the end, is EndsInHyphenDigitsMeaning, and IsLikelyDatePattern uses it |
| DateHeuristics.EndsInHyphenDigitsMeaning | main.go:167-177 | the trailing-digits test holds exactly when the string ends in a '-' followed by one or more digits, which is what `-\d+$` matches |
| DateHeuristics.CountHyphenDigits | main.go:181-182 | the number of positions where '-' is directly followed by a digit, at most the length of the string; HyphenRunsCount equates it with the number of `-\d+` matches |
| DateHeuristics.HyphenRuns | main.go:181 | the digit counts of the `-\d+` matches found left to right, each at least one; HyphenRunsCount counts them and LongRunMeaning says when one reaches four digits |
| DateHeuristics.HyphenRunsCount | main.go:181-182 | the number of `-\d+` matches found left to right equals the number of positions where '-' is directly followed by a digit |
| DateHeuristics.SkipNonHyphens | main.go:181 | a prefix without '-' holds no hyphen-digit position |
| DateHeuristics.LongRunMeaning | main.go:187-199 | some match carries four or more digits exactly when a '-' in the stem is followed by four digits |
| DateHeuristics.LongRunFound | main.go:187-195 | a reported match of four or more digits starts at a '-' followed by four digits |
| DateHeuristics.LongRunComplete | main.go:181-195 | a '-' followed by four digits always shows up as a reported match of four or more digits, because matches are taken greedily and never start inside an earlier run |
| DateHeuristics.IsLikelyDatePattern | main.go:164-202 | date-like exactly when the residual ends in '-' and digits, or the stem has three or more hyphen-digit positions, or a '-' in the stem is followed by four digits |
| DateHeuristics.FullDateIsDateLike | main.go:160 | "file-2026-01-30" with residual "file-2026-01" is date-like |
| DateHeuristics.YearIsDateLike | main.go:161 | "file-2024" with residual "file" is date-like |
| DateHeuristics.ShortSuffixIsVersion | main.go:162 | "file-1" with residual "file" is not date-like |
| DateHeuristics.NonNumericTailIsNotDateLike | main.go:163 | "file-1-backup" with itself as residual is not date-like |
| DateHeuristics.NestedVersionIsDateLike | main.go:174-177 | "file-1-2" with residual "file-1" is dropped as date-like, because the residual still ends in hyphen and digits |
| SuffixFilter.ResidualIsStemPrefix | main.go:228-233 | for an end-anchored pattern whose match ends the stem, the residual is the stem cut just before the match |
| SuffixFilter.AcceptedFiles | main.go:221-243 | the files kept on their own are exactly the input files that are accepted, each as often as it occurs in the input, and form a subsequence of the input |
| SuffixFilter.MatchedBaseNames | main.go:240-245 | the recorded base names are exactly the residuals of the accepted files |
| SuffixFilter.BaseFiles | main.go:262-277 | the base files are exactly the input files whose stem is a recorded base name, each as often as it occurs in the input, and form a subsequence of the input |
| SuffixFilter.AppendNew | main.go:251-277 | appending through the `included` set keeps what came before, adds exactly the elements not yet present, as a subsequence of the input, and adds no duplicate |
| SuffixFilter.AppendNewFirstOccurrence | main.go:251-277 | the elements `included` lets through appear in the order of their first occurrence in the input |
| SuffixFilter.Filter | main.go:221-277 | keeping the inputs in a set leaves exactly those inputs, each with its multiplicity in the input, as a subsequence of the input |
| SuffixFilter.FilterKeepsFirstOrder | main.go:221-277 | filtering keeps the relative order of first occurrences: x first occurs before y in the filtered list exactly when it does in the input |
| SuffixFilter.OrderThroughFilter | main.go:251-277 | a list in first-occurrence order of a filtered input is in first-occurrence order of the input itself |
| SuffixFilter.SubsequenceTransitive | main.go:255-277 | a subsequence of a subsequence of the input keeps input order |
| SuffixFilter.FilterWith | main.go:221-279 | the result has no duplicates; a path is in it exactly when it is an input that is accepted or whose stem is the residual of an accepted input; accepted files come first, then files that are only base files; each part is a subsequence of the input and lists its files in the order of their first occurrence there; with no accepted file the result is empty |
| SuffixFilter.FilterBySuffix | main.go:209-211 | without a pattern the input comes back unchanged |
| SuffixFilter.MatchesAtEnd | main.go:228-229 | the pattern's leftmost match in the stem ends at the end of the stem; ResidualIsStemPrefix relies on it |
| SuffixFilter.Residual | main.go:233 | the stem with every match of the pattern deleted; ResidualIsStemPrefix shows it is the stem cut before the match |
| SuffixFilter.Accepted | main.go:228-239 | a file is kept on its own when its stem matches at the end and the match is not date-like; AcceptedFiles and FilterWith state the files it selects |
| Options.Anchor | main.go:76-78 | the anchored pattern ends in '$'; it equals the input exactly when the input already ends in '$', and is the input plus '$' otherwise |
| Options.AnchorIdempotent | main.go:76-78 | anchoring twice gives the same pattern as anchoring once |
| Options.AnchorNoDoubleDollar | main.go:75-78 | anchoring never produces a trailing "$$" that the user did not write |
| Options.Validate | main.go:65-85 | fails with the prefix error exactly when minPrefix < 1, before the pattern is looked at; an empty suffix gives no pattern; otherwise the anchored pattern is compiled, and a compile failure is reported as an invalid pattern |
| Pairs.RowStartClosedForm | interactive.go:150-153 | twice the position where row i starts is i(2n - i - 1) |
| Pairs.PairCountClosedForm | interactive.go:148-156 | n files give n(n-1)/2 pairs, so 0 or 1 files give none |
| Pairs.RowStartMonotone | interactive.go:150-153 | later rows start later, and after all pairs of earlier rows |
| Pairs.PairIndexOrder | interactive.go:150-153 | pairs come in row-major order: (a, b) lexicographically before (c, d) sits at an earlier position |
| Pairs.PairIndexInjective | interactive.go:150-153 | two index pairs at the same position are the same index pair |
| Pairs.PairAt | interactive.go:150-153 | every position below the pair count holds the pair of some i < j |
| Pairs.GeneratePairs | interactive.go:148-156 | returns n(n-1)/2 pairs with (group[i], group[j]) for i < j at row-major position PairIndex(n, i, j) |
| Pairs.PairsComeFromGroup | interactive.go:150-153 | every generated pair is (group[i], group[j]) for some i < j at that pair's position |
| Pairs.DistinctGroupDistinctPairs | interactive.go:148-156 | in a group without repeated files, no pair is generated twice |
| Pairs.FindFileIndex | interactive.go:178-185 | returns the smallest index holding the file, or -1 exactly when the file is absent |
| Pairs.FindDistinct | interactive.go:178-185 | in a group without repeated files, finding group[a] gives a |
| Pairs.Key | interactive.go:163-172 | the key of a pair holds the two indices findFileIndex gives for its files, smaller first; it starts with -1 exactly when a file of the pair is not in the group, and otherwise its two positions hold exactly the pair's two files |
| Pairs.LastPositions | interactive.go:161-173 | every key written is in the map; each key maps to a position holding that key, and no later position holds it, so later pairs overwrite earlier ones |
| Pairs.PairMap | interactive.go:160-175 | every pair's key is in the map; each key maps to a position holding a pair with that key, and no later pair carries it; PairMapOfGroup gives the whole map for a group without repeated files |
| Pairs.KeyOfGeneratedPair | interactive.go:163-172 | in a group without repeated files, the pair at position PairIndex(n, i, j) has key (i, j) |
| Pairs.PairMapOfGroup | interactive.go:160-175 | in a group without repeated files, the pair map holds exactly the keys (i, j) with i < j < n, each mapped to the position of (group[i], group[j]) |
| Pairs.SelectByFileNumbers | interactive.go:92-115 | rejects the file numbers exactly when they are not two different numbers in 1..n; any pair found is a generated pair, shown either way round |
| Pairs.FileNumbersSelectTypedOrder | interactive.go:96-115 | in a group without repeated files, two valid file numbers always find their pair, shown in the order they were typed |
| Tui.Initial | tui.go:45-53 | the initial model holds the given groups, is choosing a group with the first group current and the cursor at the top, has no file selected and no diff, and satisfies the interface invariant |
| Tui.CurrentGroup | tui.go:235-240 | the current group, or empty when the index is past the last group; it is always empty or one of the groups |
| Tui.MaxCursor | tui.go:96-104 | the last cursor position of the list on screen, -1 when it is empty; MoveDown never moves the cursor past it |
| Tui.MoveUp | tui.go:73-93 | only the cursor changes; at the top nothing happens; the cursor moves up by one unless that lands on the first file while the second is being chosen; then it moves up by two, or, when the first file is the top entry, wraps to the last entry (or the one before it if that is the first file again) |
| Tui.MoveDown | tui.go:95-124 | only the cursor changes; nothing happens while the diff is shown or when the cursor is at its maximum; the cursor moves down by one unless that lands on the first file while the second is being chosen; then it moves down by two, or, when the first file is the last entry, wraps to the top (or the entry after it if the top is the first file again); it never passes the maximum |
| Tui.NextGroup | tui.go:132-140 | moves to the next group with the cursor at the top only while a group is being chosen and a later group exists; otherwise nothing changes |
| Tui.HandleEnter | tui.go:148-204 | quits exactly when choosing a group with no groups; otherwise it steps forward, each step changing only the fields named: group to first file with cursor 0; first file recorded, cursor on the top entry or on the next one when the top entry is that file; enter on the first file again changes nothing; another file is recorded as second file, the diff output is the diff text or "Error generating diff: " followed by the error message, and the cursor stays; from the diff, back to the first-file step with every selection cleared |
| Tui.HandleEscape | tui.go:207-232 | one step back with the cursor at the top, clearing the selection being undone; nothing happens while choosing a group |
| Tui.Update | tui.go:61-145 | quits exactly on "ctrl+c" or "q", or on enter or space while choosing a group when there are none; quitting leaves the model as it was, no key changes the groups, and a key with no binding changes nothing |
| Tui.UpdateKeepsInv | tui.go:61-232 | every key press keeps the invariant: valid group index, cursor on the list in view, selections made so far are files of the current group, and cleared fields stay cleared |
| Tui.MoveSkipsFirstFile | tui.go:76-122 | while choosing the second file of a group of at least two distinct files, an up or down press that moves the cursor never lands on the first file; up from just below a first file at the top wraps to the last entry, and down onto a first file at the bottom wraps to the top |
| Tui.DownUndoesUp | tui.go:73-106 | outside the second-file step, down after up returns to the same model |
| Tui.EscapeUndoesEnter | tui.go:148-232 | escape after a successful enter restores the model, apart from the cursor, which is at the top |

## Left out

- Directory scanning (`scanner.go`) is left out: it is file-system I/O. The model starts from the list of paths.
- Running the external diff (`diff.go`) is left out. `Tui.HandleEnter` takes the diff as a function that returns text or an error message.
- Flag parsing, `os.Stat`, `os.Exit` and starting the terminal program in `main`/`run` are left out. Only the checks that `Options.Validate` models remain.
- The regular-expression engine is abstract. A compiled pattern is the pair of operations the filter uses: the leftmost match, and the string with every match removed. `Options.Validate` receives compilation as a function.
- SuffixFilter.AppendNew: its own contract does not give the order of the elements it adds; that order, first occurrence in the input, is stated by `SuffixFilter.AppendNewFirstOccurrence` and carried into `SuffixFilter.FilterWith`.
- SuffixFilter.ResidualIsStemPrefix: holds only under `EndAnchored`, a property of Go's regexp engine that the model states rather than derives. `ReplaceAllString` replaces matches left to right starting with the leftmost match; once that match ends the string, the only later match could be an empty one at the end, and Go drops an empty match that abuts the previous one. So for any pattern whose leftmost match ends the stem, removing every match removes exactly that match. The filter itself uses the residual exactly as computed, with no such assumption.
- Matcher.Group: fixes an order the source does not have. Groups are ordered by their first file, and files within a group come in input order. In the source, group order comes from Go map iteration and is not determined, so no claim about group order describes the source.
- Paths.Base: models only "the segment after the last '/'". The special cases of Go's `filepath.Base` are not modelled: trailing slashes are stripped, and an empty path becomes ".". Likewise the '\' separator on Windows and Unicode handling are left out.
- Tui.Update: handles key presses only. Window-size messages only record the terminal size for rendering, and other messages change nothing. `View` and the render functions are presentation only.
- The line-oriented loop (`Run`, `handleGroup`, `showDiff`) is left out: it is console I/O with `Sscanf` parsing and recursion on invalid input. Only these pure decisions are modelled:
  - the file-number check;
  - pair selection by file numbers (`Pairs.SelectByFileNumbers`).
- The choice by pair number (`interactive.go:119-124`) is left out. It is a bounds check and a single index into the pair list.
- The pair map's string keys (`"%d-%d"`) are modelled as integer pairs. The format turns distinct pairs of non-negative indices into distinct strings.
- Go's `int` overflow is not modelled. Indices and counts are bounded by the number of files.
