# Hacktoberfest leaderboard — a Dafny model

This project models the core of `vaskoz/hacktoberfest-leaderboard`, a Go
program (`main.go`). The program runs a polling loop against a code-hosting
platform:

- Authors of open sign-up issues become participants.
- Their issues are thanked and closed.
- The roster file `participants.txt` is rewritten.
- Every participant's qualifying pull requests are counted.
- When the counts change, the ranked leaderboard is rewritten into `README.md`.

The model turns one pass of that loop into a pure function. Every answer
from the platform is a parameter.

| module | file | models |
|---|---|---|
| `GoStrings` | `gostrings.dfy` | the Go string operations the program relies on: bytewise `<`, `strings.ToLower`, `strings.Split` with a one-character separator (and `Join`, its inverse), `strings.LastIndex`, `strings.TrimSpace`, `%d` |
| `Ranking` | `ranking.dfy` | `Tuple` and `Sort`: the ranking of a handle-to-count map |
| `Qualify` | `qualify.dfy` | whether one pull request counts; the owner/name derivation from its URL; the per-participant count |
| `Roster` | `roster.dfy` | writing the roster file, and the loop in `connectRepo` that reads it back. Its handle sort repeats the selection argument of `Ranking.Sort` on a set of strings under `<`, rather than on map entries under the ranking comparator, because the source sorts these with a different call (`sort.StringSlice`) and order |
| `Leaderboard` | `leaderboard.dfy` | the text of the leaderboard file |
| `Reconcile` | `reconcile.dfy` | the seed registry, one pass of `updateStats` (`Cycle`), and a run of passes (`Run`) |
| `Optional` | `optional.dfy` | `Option`: a `None` stands for the run-time panic of the program |

A pass (`Reconcile.Cycle`) takes two things:

- The loop's state: the registry, plus the version tokens of the two files.
- A `Responses` value. It holds the issue search (its reported total and the issues it returned), the pull requests the search finds for each handle, the topics of each repository, the tokens the two file writes hand back, and the formatted time of the pass.

It returns the calls the pass makes on the platform, in order:

1. a comment on each issue, then closing that issue;
2. a write of the roster file, if there is one;
3. a write of the leaderboard file, if there is one.

It also returns the next state. There is no next state when the program
would panic.

Some behaviours of the code differ from the documented behaviour. The model
follows the code, and the lemmas named here make each difference explicit:

- The roster is rewritten whenever the issue search reports a non-zero total (`main.go:110`). That includes sign-ups by handles already in the registry. It is not limited to new participants (`Reconcile.CycleRosterWrite`).
- Intake sets every issue author to `-1`, known or not (`main.go:100`).
- The leaderboard decision compares the fresh counts with the registry after intake (`main.go:172`), not with the previous snapshot. So every pass that admits a sign-up and completes rewrites the leaderboard, even when no count changed (`Reconcile.SignUpForcesLeaderboard`). Without sign-ups, unchanged counts write nothing (`Reconcile.UnchangedIsQuiet`).
- The roster reader tests a line for emptiness before trimming it (`main.go:75-76`). So a line of spaces yields the empty handle, and the documented "no blank lines" rule is not enforced on reading (`Roster.BlankLineGivesEmptyHandle`).
- A pull-request URL that, once cut at its last `/pull/`, contains no `/` makes the code index out of range (`main.go:152-153`). The model returns `None` for it (`Qualify.RepoOf`, `Reconcile.CyclePanics`).

## Model

| member | source | states |
|---|---|---|
| Ranking.Sort | main.go:197-213 | The result ranks the map. It has one tuple per key, carrying that key's count, and its length is the map's size. Each entry sorts strictly before the next: a higher count, or an equal count and a smaller handle. |
| Ranking.BeforeTransitive | main.go:204-211 | The less function passed to `sort.Slice` is transitive. |
| Ranking.BeforeTotal | main.go:204-211 | Any two entries with different handles are ordered one way or the other, so the less function is a strict total order on a map's entries. |
| Ranking.RankingUnique | main.go:200-211 | Two sequences that both rank the same map are equal. So the result does not depend on the order in which `range` visits the map. |
| Ranking.SortUnique | main.go:197-213 | Every sequence that ranks a map is the one `Sort` returns. |
| Ranking.RanksDistinct | main.go:200-202 | A ranking never repeats a handle. |
| Ranking.TallyLists | main.go:200-202 | A sequence without repeated handles lists exactly the entries of the map it describes. |
| Ranking.SortOrdered | main.go:197-213 | Sorting the map described by an ordered, duplicate-free sequence gives that sequence back. |
| Ranking.SortIdempotent | main.go:197-213 | The ranking describes exactly the map it came from, and sorting it again changes nothing. |
| Ranking.SortBreaksTies | main.go:207 | At equal counts, `alice` is listed before `bob`. |
| Ranking.SortHighestFirst | main.go:205 | `dave` with 5 is listed before `carol` with 3. |
| GoStrings.LessTransitive | main.go:207 | Go's `<` on strings is transitive. |
| GoStrings.LessTotal | main.go:207 | Two different strings are ordered by `<` one way or the other. |
| GoStrings.LowerRune | main.go:140 | An upper-case ASCII letter becomes its lower-case letter, U+0130 becomes `i` and U+212A becomes `k`. No other character changes, and the result is never an upper-case ASCII letter. |
| GoStrings.ToLower | main.go:140 | The length is kept, and every character is lowered independently. |
| GoStrings.ToLowerIdempotent | main.go:157 | Lower-casing twice is lower-casing once. |
| GoStrings.Split | main.go:151 | There is at least one piece, and no piece contains the separator. |
| GoStrings.JoinSplit | main.go:151 | Joining the pieces of a split with the separator gives back the string. |
| GoStrings.SplitJoin | main.go:73 | Splitting a joined sequence whose pieces have no separator gives back the pieces. |
| GoStrings.SplitCount | main.go:151-153 | A split has one more piece than the string has separators. |
| GoStrings.SplitTerminated | main.go:73 | Splitting newline-terminated lines on `\n` gives the lines, then one empty piece. |
| GoStrings.LastIndex | main.go:148 | The result is -1 or an index where the marker occurs. No occurrence starts after it. |
| GoStrings.TrimSpace | main.go:76 | The result is no longer than the input, and it neither starts nor ends with a space. |
| GoStrings.TrimSpacePiece | main.go:76 | The result is a contiguous piece of the input, and only spaces are cut off on either side. |
| GoStrings.TrimSpaceKeepsOut | main.go:76 | Trimming never introduces a character. |
| GoStrings.TrimSpaceFixed | main.go:76 | A string is left unchanged exactly when it neither starts nor ends with a space. |
| GoStrings.NatToDecimal | main.go:178 | The digits of a number: non-empty, all decimal digits, and no leading zero unless the number is 0. |
| GoStrings.DecimalRoundTrip | main.go:178 | Reading back the decimal digits of a number gives the number. |
| GoStrings.ItoaInjective | main.go:178 | Different numbers are printed differently by `%d`. |
| Qualify.AnyLowerIs | main.go:139-145 | True exactly when some element, lower-cased, equals the word. This is the label loop, and the topic loop at lines 156-162. |
| Qualify.CutPull | main.go:147-150 | The result is a prefix of the URL. If shorter, it ends where `/pull/` occurs, and no occurrence starts after that. If it is the whole URL, `/pull/` does not occur at all. |
| Qualify.RepoOf | main.go:151-153 | `None` (the index-out-of-range panic) exactly when the cut URL has no `/`. Otherwise owner and name contain no `/`. |
| Qualify.RepoOfLocates | main.go:151-153 | Owner and name are the last two `/`-separated segments: the cut URL ends with `owner/name`, which starts at its beginning or right after a `/`. |
| Qualify.JudgeMeaning | main.go:137-166 | A pull request panics exactly when its cut URL has no `/`. It counts exactly when its repository is derivable and either a label lowers to `hacktoberfest-accepted` or a topic of the derived repository lowers to `hacktoberfest`. |
| Qualify.UnlabelledUntaggedNeverCounts | main.go:137-166 | A pull request with no labels, whose own repository has no topics, does not count. |
| Qualify.CountValid | main.go:135-169 | `None` exactly when some pull request panics. Otherwise the count is the number of pull requests judged to count, which is at most the number of pull requests, so each adds at most one. |
| Qualify.CountExtremes | main.go:135-169 | The count equals the number of pull requests exactly when each one counts. It is zero exactly when none counts and none panics. |
| Qualify.CountPanics | main.go:147-153 | Counting panics exactly when some pull request's cut URL has no `/`. |
| Roster.SortedHandles | main.go:111-115 | Every handle appears exactly once, in strictly ascending order. |
| Roster.KeepLines | main.go:74-78 | The result is at most as many lines as the input, and each kept line is trimmed. |
| Roster.KeepLinesAppend | main.go:74-78 | Line by line: a further line adds nothing when it is empty and its `TrimSpace` otherwise, so the kept lines are the trimmed non-empty lines, in order. |
| Roster.Parse | main.go:73-78 | No participant read from the file contains a newline. |
| Roster.ParseRender | main.go:116-119 | Reading back a written roster whose handles are non-empty, single-line and trimmed gives the handles in sorted order. |
| Roster.BlankLineGivesEmptyHandle | main.go:75-76 | The content `" \nbob\n"` yields the participants `""` and `bob`. |
| Leaderboard.EntriesAt | main.go:177-178 | Line `i` of the ranked lines shows rank `i + 1` and the `i`-th entry of the ranking. |
| Leaderboard.EntryOneLine | main.go:178 | A ranked line contains no newline when the handle contains none. |
| Leaderboard.RenderLines | main.go:176-179 | Split into lines, the file is: the title, `### Updated: ` followed by the time, then one line per ranked entry in order, then nothing after the last newline. |
| Reconcile.Seed | main.go:84-87 | The registry starts with exactly the listed participants, all at `-1`. |
| Reconcile.Admit | main.go:98-100 | The keys after intake are the old keys plus the issue authors. Each author is at `-1`, and every other entry keeps its value. |
| Reconcile.Acknowledge | main.go:98-108 | Each issue gets a thank-you comment, then a close, in issue order: two calls per issue. |
| Reconcile.Evaluate | main.go:131-170 | `None` exactly when some participant's count panics. Otherwise the fresh map has exactly the given keys, and each maps to its qualifying count, which lies between 0 and that participant's number of pull requests. |
| Reconcile.CycleKeepsParticipants | main.go:98-191 | After a completed pass, the registry's keys are the old keys plus the issue authors. |
| Reconcile.CycleCountsInRange | main.go:131-170 | After a completed pass, every value is the participant's qualifying count. It lies between 0 and their number of pull requests, so it is never `-1`. |
| Reconcile.CyclePanics | main.go:131-170 | A pass panics exactly when some participant, old or new, has a pull request whose cut URL contains no `/`. |
| Reconcile.CycleRosterWrite | main.go:110-129 | The roster is written once exactly when the reported total is non-zero. The write holds the sorted, newline-terminated handles after intake and carries the old token. The returned token becomes the new one. |
| Reconcile.CycleLeaderboardWrite | main.go:172-189 | The leaderboard is written once exactly when a completed pass's counts differ from the registry after intake. The write holds the rendered ranking of the new counts and carries the old token. The returned token becomes the new one. A panicking pass does not write it. |
| Reconcile.SignUpForcesLeaderboard | main.go:98-172 | A completed pass with at least one sign-up always writes the leaderboard. |
| Reconcile.FirstCycleWritesLeaderboard | main.go:84-172 | The first completed pass over a non-empty registry whose values are all `-1` always writes the leaderboard. |
| Reconcile.UnchangedIsQuiet | main.go:172-191 | Without sign-ups, a completed pass whose counts equal the registry makes no call at all and leaves the state unchanged. |
| Reconcile.SecondPassIsQuiet | main.go:94-193 | Without sign-ups, repeating a completed pass with the same answers makes no call and changes nothing. |
| Reconcile.RunKeepsParticipants | main.go:94-194 | However many passes run, no participant is ever dropped. |
| Reconcile.RosterRestoresRegistry | main.go:73-87 | Seeding from a read-back roster restores the registry's handles, provided each handle is clean. |
| Reconcile.SignUpExample | main.go:98-129 | A first sign-up by `erin` in issue 7 gives these calls: a thank-you comment on 7, closing 7, then a roster write of `erin\n`. |

## Left out

- The environment checks, `exit`, and `main` (`main.go:36-61`). These are process plumbing.
- `setupNewRepo` (`main.go:216-247`). This is a one-time bootstrap through the platform client.
- The two downloads in `connectRepo` (`main.go:66-67`). The file content read back is a parameter of `Roster.Parse`.
- All platform client calls. Their results are fields of `Responses`, and the calls that change something are `Effect` values. The source discards every error, so there are no error paths to model.
- The search query strings (`main.go:89`, `main.go:96`) and paging. `Responses.prs` is whatever the search returns for a handle.
- A failed search or repository lookup returns `nil`, and the source then dereferences it and panics. This is not modelled. Such a lookup is taken to return an empty answer.
- The timestamp `time.Now().Format(time.RFC1123Z)` (`main.go:175-176`). It is the opaque string `Responses.stamp`.
- `time.Sleep` and the unbounded `for` loop (`main.go:94`, `main.go:193`). A pass is one step, and `Reconcile.Run` runs a finite sequence of passes.
- The commit message built up in `commitMsg` (`main.go:92`, `main.go:101`). It only labels commits.
- GoStrings.LowerRune: models only the lowering of `A`-`Z`, U+0130 and U+212A. These are the only characters whose lower case can equal the ASCII words compared against. Other letters are kept unchanged.
- GoStrings.Less: compares Unicode scalar values rather than UTF-8 bytes. The two orders agree because UTF-8 preserves code-point order. Strings that are not valid UTF-8 are not modelled.
- Leaderboard.Render and Roster.Render: only the text is modelled. The byte encoding of the uploaded content is not.
