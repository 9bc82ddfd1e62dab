# Release-summary generators and string validators

This project models the release tooling of the brc-mono repository and proves properties of the model:

- `scripts/changeset-summary.js`, called the *current generator* below. It reads the `git log` between `main` and `dev`, files every commit under a conventional-commit category, and aggregates contributors from commit authors and `Co-authored-by:` trailers. It then renders the release summary in Markdown, writes a changeset file (YAML-like frontmatter with one `"<package>": minor` line per workspace package, then the summary), and builds a metadata record with counts and masked e-mail addresses.
- `scripts/generate-changeset-summary.js`, called the *legacy generator* below. It runs the same pipeline without contributors and with a three-line commit record. Its changeset carries only the first three paragraphs of the summary. Its category table has no `other` entry, so every commit that would be filed there raises an exception and ends the run.
- `packages/utils/src/validators.ts`: `isValidEmail` and `isNotEmpty`.

The outputs of `git log`, `git diff --stat` and `pnpm m ls` are parameters. The package detection result is `None` when the command or its JSON parse throws, and otherwise the list of `name` fields. The timestamp, the two refs and the changeset id are parameters too.

## Layout

| file | module | what it holds |
|---|---|---|
| outcomes.dfy | `Outcomes` | `Option` and `Result`, and the present values of a sequence of options |
| text.dfy | `Text` | JavaScript string semantics: `trim` and `\s`, `indexOf`, `split`/`join` on a string separator, ASCII lower-casing, decimal rendering, a code-point order for names |
| git_log.dfy | `GitLog` | cutting the log into chunks, reading a chunk by line position, and the round trip from a formatted log back to its entries |
| commit_header.dfy | `CommitHeader` | the conventional-commit header expression as a matcher plus a declarative decomposition (sound and complete), and rendering of an entry |
| categories.dfy | `Categories` | the category table of both generators: keys, titles and declaration order |
| classify.dfy | `Classify` | where a commit goes in each generator; the legacy one returns a `Result` |
| co_authors.dfy | `CoAuthors` | the global `Co-authored-by:` scan and the second, per-match reading |
| contributors.dfy | `Contributors` | the contributor map as a replay of writes, its invariants, the comparator sort and both listings |
| diff_stat.dfy | `DiffStat` | the three counter expressions over the stat text and the File Changes line |
| email_mask.dfy | `EmailMask` | the e-mail masking expression |
| changeset.dfy | `Changeset` | `.filter(Boolean)` over package names, the placeholder, and the changeset file |
| current_generator.dfy | `CurrentGenerator` | the `forEach` loop as a class with a `while` loop, the `+=` rendering as methods, the metadata, the whole run |
| legacy_generator.dfy | `LegacyGenerator` | the legacy loop, which stops at the first commit it cannot file, the legacy summary, the brief summary, the whole run |
| validators.dfy | `Validators` | `isValidEmail` and `isNotEmpty` |

Where the code does something step by step, the model does it step by step as well. The `forEach` loops are `while` loops over the chunks. They update a class (`CurrentGenerator.Aggregate` or `LegacyGenerator.Ledger`) whose fields are the contributor map, its key order, the three role sets and the category lists. The summary strings are built by `+=` in methods with loops. Each method is proved against a specification function: `Replay` and `Routes` for the loop, `SummaryText` and `LegacySummaryText` for the rendering. The lemmas state what the source promises about those functions.

Every regular expression is written twice. The first version is a scanning function that follows the engine's leftmost-first, backtracking search. The second is a declarative predicate that reads the pattern as a decomposition of the input. Lemmas connect the two: `MatchHeaderSound`/`MatchHeaderComplete`, `MatchSound`/`MatchComplete`, `CountAtDecomposition` with `FirstCountSpec`, and `ValidEmailMatchesPattern`.

## Behaviour kept as the code has it

- A primary-author write replaces the whole map value, so `isCoAuthor` goes back to `false` even when a trailer had set it before (`scripts/changeset-summary.js:72-79`). `Contributors.ReplayCharacterized` states the outcome: an identity is flagged exactly when the last write naming it was a trailer.
- The current generator's separator is the mis-encoded `" â€” "`, which is U+00E2 U+20AC U+201D between spaces (`scripts/changeset-summary.js:135`). The legacy generator uses a real em dash, U+2014.
- The body is `%b` as git prints it, ending with the message's final newline, so a blank line precedes the delimiter. Reading drops the whitespace around it (`lines.slice(4).join('\n').trim()`), so the round-trip lemmas give back each commit with its body trimmed (`GitLog.AsRead`).
- `Commit Count` and the metadata `commitCount` count every non-blank chunk. That includes chunks later skipped for having too few lines.
- The placeholder package name appears only when detection throws. An empty detected list gives an empty frontmatter line.
- The current generator's changeset carries the whole summary (`const briefSummary = summary`). The legacy generator takes the first three `\n\n`-separated paragraphs, and those are always the same text: `LegacyGenerator.LegacyBriefFixed`.
- The legacy generator's `categories` has no `other` key. A subject the header expression rejects, an empty type and the type `other` all reach `categories.other.commits.push` and throw a `TypeError`. The model returns `Failure(MissingOther(subject))` for the first such commit. The run then writes nothing and exits with status 1.

## Model

| member | source | states |
|---|---|---|
| Validators.ValidEmailMatchesPattern | packages/utils/src/validators.ts:6-9 | `isValidEmail` accepts exactly the strings made of three non-empty runs without whitespace or `@`, around `@` and a `.`. |
| Validators.ValidEmailCharacterization | packages/utils/src/validators.ts:6-9 | Acceptance holds iff there is no whitespace, exactly one `@`, a non-empty local part and a `.` inside the domain that is neither its first nor its last character. |
| Validators.ValidEmailShape | packages/utils/src/validators.ts:7 | An accepted address has its `@` at the first `@` position, an inner dot after it, and no whitespace or further `@` on either side. |
| Validators.ValidEmailRejectsWhitespace | packages/utils/src/validators.ts:7 | Any whitespace character makes the address invalid. |
| Validators.ValidEmailNeedsOneAt | packages/utils/src/validators.ts:7 | Zero `@`, or two or more, make the address invalid. |
| Validators.NotEmptyIffVisible | packages/utils/src/validators.ts:16-18 | `isNotEmpty` holds iff some character is not whitespace. |
| Validators.NotEmptyPaddingInvariant | packages/utils/src/validators.ts:16-18 | Leading and trailing whitespace do not change `isNotEmpty`. |
| Validators.ValidEmailIsNotEmpty | packages/utils/src/validators.ts:6-18 | Every valid e-mail address is also non-empty. |
| Text.Trim | scripts/changeset-summary.js:62-69 | `trim` yields a text that neither starts nor ends with whitespace. |
| Text.TrimSplits | scripts/changeset-summary.js:62-69 | `trim` gives the middle of the text between two whitespace runs. |
| Text.TrimUnique | scripts/changeset-summary.js:62-69 | Any split into whitespace, a trimmed middle and whitespace is the one `trim` finds. |
| Text.TrimEmptyIff | scripts/changeset-summary.js:27-29 | A trimmed text is empty iff the text is all whitespace, which is when `.filter((c) => c.trim())` drops it. |
| Text.TrimIdempotent | scripts/changeset-summary.js:62-69 | Trimming twice is trimming once. |
| Text.IndexOf | scripts/changeset-summary.js:62 | `indexOf` finds the first occurrence at or after the start, and finds nothing only when there is none. |
| Text.JoinSplit | scripts/changeset-summary.js:62-69 | Joining the pieces of a split with the same separator gives back the text. |
| Text.SplitPiecesFree | scripts/changeset-summary.js:62 | No piece of a split contains the separator. |
| Text.SplitJoinChar | scripts/changeset-summary.js:62-69 | Splitting at a character a join of pieces free of that character gives back the pieces. |
| Text.ToLowerAscii | scripts/changeset-summary.js:117 | Lower-casing keeps the length and maps characters one by one. |
| Text.NatToString | scripts/changeset-summary.js:186-188 | The decimal rendering used in the listings is non-empty, all digits and without a leading zero. |
| Text.NatToStringValue | scripts/changeset-summary.js:217 | The decimal rendering of a number is non-empty, all digits, and reads back as that number. |
| Text.StrLessIrreflexive | scripts/changeset-summary.js:179 | No name comes before itself. |
| Text.StrLessTotal | scripts/changeset-summary.js:179 | The name order used for ties is total on distinct names. |
| Text.StrLessTransitive | scripts/changeset-summary.js:179 | The name order is transitive. |
| GitLog.NonBlank | scripts/changeset-summary.js:27-29 | A piece is kept iff its trimmed text is not empty, and the kept chunks are never more than the pieces. |
| GitLog.NonBlankAppend | scripts/changeset-summary.js:27-29 | The filter keeps the order of the pieces: filtering a concatenation filters each part in turn. |
| GitLog.ParseCommit | scripts/changeset-summary.js:62-69 | A commit record is read iff the chunk has at least four lines. |
| GitLog.ParseLegacyCommit | scripts/generate-changeset-summary.js:60-65 | A legacy record is read iff the chunk has at least two lines. |
| GitLog.BodyOf | scripts/changeset-summary.js:69 | The body is trimmed. |
| GitLog.ParsePiece | scripts/changeset-summary.js:62-69 | The text git writes for one entry, after a leading newline or nothing, reads back as that entry with its body trimmed. The body is `%b` as git prints it, final newline and any surrounding whitespace included. |
| GitLog.SplitLog | scripts/changeset-summary.js:16-29 | Cutting a formatted log at the delimiter gives one piece per entry, then the empty rest. |
| GitLog.LogRoundTrip | scripts/changeset-summary.js:16-29 | A log of well-formed entries gives one chunk per entry, and chunk `i` reads back as entry `i` with its body trimmed. |
| GitLog.CommitLogRoundTrip | scripts/changeset-summary.js:16-69 | The current generator reads back every commit of a log it asked git to format: the same fields, and the body `%b` trimmed. |
| GitLog.LegacyLogRoundTrip | scripts/generate-changeset-summary.js:19-65 | The legacy generator reads back every commit of a log it asked git to format: the same fields, and the body `%b` trimmed. |
| CommitHeader.ScopeAndColon | scripts/changeset-summary.js:113 | The optional scope group is `(`, at least one non-`)` character, then `)`, and a colon follows. |
| CommitHeader.MatchAfterType | scripts/changeset-summary.js:113 | After group 1, a match needs `(` or `:`, and group 1 is the prefix up to that point. |
| CommitHeader.MatchHeaderSound | scripts/changeset-summary.js:112-114 | Every match the matcher reports is a decomposition of the subject by the expression. |
| CommitHeader.MatchHeaderComplete | scripts/changeset-summary.js:112-114 | Every decomposition is the one the matcher finds, so a match exists iff a decomposition does, and it is unique. |
| CommitHeader.AfterTypeComplete | scripts/changeset-summary.js:113 | A decomposition fixes the scope, the colon and the description once the type is fixed. |
| CommitHeader.KeywordLengthForced | scripts/changeset-summary.js:113 | A keyword that prefixes the lower-cased subject and is followed by a valid scope and colon is the decomposition's type. |
| CommitHeader.StripParens | scripts/changeset-summary.js:118-120 | The stripped scope holds no parenthesis and is no longer than the group. |
| CommitHeader.StripParensOfGroup | scripts/changeset-summary.js:118-120 | The scope group `(t)` of a parenthesis-free `t` renders as `t`. |
| CommitHeader.FirstParagraphBeforeBlankLine | scripts/changeset-summary.js:129 | The first paragraph is the trimmed text before the first blank line, or the whole trimmed body without one. |
| CommitHeader.ParagraphAppended | scripts/changeset-summary.js:123-137 | A short, single-line first paragraph that is not a trailer is appended to the entry after the separator. |
| CommitHeader.TrailerBodyAddsNothing | scripts/changeset-summary.js:128-137 | A body that opens with `Co-authored-by:` adds nothing to the entry. |
| Categories.Lookup | scripts/changeset-summary.js:139-143 | `categories[type]` finds a declared category with that key, or none when no declared key is equal. |
| Categories.KeyInjective | scripts/changeset-summary.js:39-59 | Distinct categories have distinct keys. |
| Categories.LookupFinds | scripts/changeset-summary.js:139-140 | Looking up a declared category's key finds it. |
| Categories.CurrentOrderComplete | scripts/changeset-summary.js:39-59 | The current table declares every category exactly once, `other` last. |
| Categories.LegacyOrderLacksOther | scripts/generate-changeset-summary.js:37-56 | The legacy table is the current one without `other`. |
| Categories.KeywordCategory | scripts/changeset-summary.js:113 | Keyword `i` of the header expression is the key of a declared category other than `other`. |
| Categories.CurrentKeywordsDeclared | scripts/changeset-summary.js:113 | Every keyword of the header expression names a declared category other than `other`. |
| Categories.LegacyLookupFails | scripts/generate-changeset-summary.js:69 | Among the empty type and the keywords of the legacy expression, legacy lookup fails exactly for the empty type and `other`. |
| Classify.RouteNamed | scripts/changeset-summary.js:116-140 | A keyword type, in any case, files the commit under the category of the lower-cased type, with its rendered entry. |
| Classify.RouteEmptyType | scripts/changeset-summary.js:139-143 | An empty type (a subject starting with `(` or `:`) files the entry under `other`. |
| Classify.RouteUnmatched | scripts/changeset-summary.js:144-146 | A subject the expression rejects goes to `other` as `- ` + subject, without its body. |
| Classify.RouteOtherIff | scripts/changeset-summary.js:112-146 | A commit lands in `other` iff no reading of its subject has a non-empty type. |
| Classify.LegacyFailsIff | scripts/generate-changeset-summary.js:68-107 | The legacy routing fails iff every reading of the subject has an empty type or the type `other`. |
| Classify.RouteLegacyNamed | scripts/generate-changeset-summary.js:72-100 | A named type files the commit under that type, with the real-em-dash entry. |
| Classify.GeneratorsAgreeOnNamed | scripts/generate-changeset-summary.js:68-103 | Where the current generator names a category, the legacy one files the commit there too. |
| CoAuthors.WhitespaceRunSpec | scripts/changeset-summary.js:84 | The `\s` run is maximal: all whitespace, ending at the end of the text or at a non-whitespace character. |
| CoAuthors.MatchSound | scripts/changeset-summary.js:83-84 | A match covers a trailer text: the marker, whitespace, a name without `<`, whitespace, then `<email>`. |
| CoAuthors.MatchComplete | scripts/changeset-summary.js:83-84 | Every trailer text is matched where it starts, and the match ends where the text ends. |
| CoAuthors.MatchFormatted | scripts/changeset-summary.js:83-92 | A trailer as git writes it is matched where it starts, with the name and e-mail as groups. |
| CoAuthors.FindFrom | scripts/changeset-summary.js:84 | The search finds the leftmost match at or after the start, and none only when there is none. |
| CoAuthors.ScanTexts | scripts/changeset-summary.js:83-84 | Every text the global match collects is a trailer text. |
| CoAuthors.RematchAt | scripts/changeset-summary.js:86-89 | A collected text matches again when read on its own. |
| CoAuthors.ScanReadsBack | scripts/changeset-summary.js:85-89 | The guard `if (coAuthorMatch)` never fails on collected texts. |
| CoAuthors.CoAuthorsCount | scripts/changeset-summary.js:83-92 | Every collected text yields one co-author. |
| CoAuthors.FormattedTrailerRead | scripts/changeset-summary.js:83-92 | A body that is one git-written trailer yields that name and e-mail. |
| Contributors.ApplyValid | scripts/changeset-summary.js:71-108 | Every map write keeps the invariant: map keys and the key order agree, and the role sets are inside the keys. |
| Contributors.ReplayValid | scripts/changeset-summary.js:61-110 | Any sequence of writes leaves a valid map. |
| Contributors.ReplayCharacterized | scripts/changeset-summary.js:71-108 | An identity is in the map iff some write named it. Its `commits` is the number of authorships. It is flagged iff the last write naming it was a trailer. It is in `authors` (`coAuthors`) iff an authorship (trailer) named it. |
| Contributors.TrailerOnlyHasNoCommits | scripts/changeset-summary.js:94-101 | An identity seen only in trailers has no commits, is not an author and is a co-author. |
| Contributors.CommitSumApply | scripts/changeset-summary.js:71-105 | One write adds one to the sum of `commits` when it is an authorship, and nothing otherwise. |
| Contributors.ReplayCommitSum | scripts/changeset-summary.js:71-105 | The `commits` over the map add up to the number of authorships. |
| Contributors.BeforeIrreflexive | scripts/changeset-summary.js:175-180 | The comparator never puts an entry before itself. |
| Contributors.BeforeTransitive | scripts/changeset-summary.js:175-180 | The comparator is transitive. |
| Contributors.Insert | scripts/changeset-summary.js:174-181 | Inserting adds exactly the one entry. |
| Contributors.InsertOrdered | scripts/changeset-summary.js:174-181 | Inserting into an ordered list keeps it ordered. |
| Contributors.SortCorrect | scripts/changeset-summary.js:174-181 | The sorted list is in comparator order (more commits first, then names) and is a permutation of the entries. |
| Contributors.WithIdInMembers | scripts/changeset-summary.js:184 | The author filter keeps exactly the entries whose key is in the set. |
| Contributors.FlaggedMembers | scripts/changeset-summary.js:198 | The co-author filter keeps exactly the flagged entries. |
| Contributors.RankedFacts | scripts/changeset-summary.js:174-181 | The ranked list is ordered, has distinct keys, and holds exactly the map's entries. |
| Contributors.PrimaryAuthorsListed | scripts/changeset-summary.js:183-195 | Primary Authors lists each identity of `authors` exactly once, in comparator order, each with a positive count equal to its authorships. |
| Contributors.AuthorCommits | scripts/changeset-summary.js:186-188 | Each listed author's count is its number of authored commits, and is positive. |
| Contributors.AuthorListing | scripts/changeset-summary.js:183-184 | The author listing holds each key of `authors` once, with its map value, in order. |
| Contributors.CoAuthorsListed | scripts/changeset-summary.js:197-205 | Co-Authors lists exactly the flagged entries, each once, in comparator order. |
| Contributors.CoAuthorMentions | scripts/changeset-summary.js:103-108 | Each listed co-author was last named by a trailer and is in `coAuthors`. |
| Contributors.FlaggedListing | scripts/changeset-summary.js:197-198 | The flagged listing holds each flagged key once, with its map value, in order. |
| Contributors.ListingsWithinMap | scripts/changeset-summary.js:183-199 | Neither listing is longer than the map. |
| Contributors.DistinctCount | scripts/changeset-summary.js:317 | With distinct keys there are as many entries as keys. |
| DiffStat.DigitRunSpec | scripts/changeset-summary.js:155-157 | `\d+` takes the maximal run of ASCII digits. |
| DiffStat.CountAtDecomposition | scripts/changeset-summary.js:155-157 | A counter expression matches at a position iff some non-empty run of digits there is followed by the counter's words; the greedy run is the only one that can be. |
| DiffStat.FirstCountSpec | scripts/changeset-summary.js:155-157 | The search finds the leftmost match of a counter expression, and finds none only when there is none. |
| DiffStat.CountTextShape | scripts/changeset-summary.js:155-157 | The reported number is a non-empty run of digits, and `0` when the expression does not match. |
| DiffStat.CountTextAt | scripts/changeset-summary.js:155-157 | The leftmost match's full digit run is the number. |
| DiffStat.StatLineFiles | scripts/changeset-summary.js:155 | The number of files is read back from git's summary line. |
| DiffStat.StatLineInsertions | scripts/changeset-summary.js:156 | The insertions are read back, and read as `0` when the clause is absent. |
| DiffStat.StatLineDeletions | scripts/changeset-summary.js:157 | The deletions are read back, and read as `0` when the clause is absent. |
| DiffStat.LastLineShape | scripts/changeset-summary.js:218 | `split('\n').pop()` is the longest newline-free tail of the text. |
| DiffStat.FileChangesFallback | scripts/changeset-summary.js:218 | The last line of the trimmed stat is empty iff git printed only whitespace, and then the entry says `Multiple files affected`. |
| DiffStat.FileChangesReportsSummary | scripts/changeset-summary.js:218 | When the stat ends with git's summary line, File Changes is that line. |
| EmailMask.LastMaskPoint | scripts/changeset-summary.js:322 | The greedy `.*` picks the last `@` with three characters before and after it. |
| EmailMask.MaskNoMatch | scripts/changeset-summary.js:322 | An address the expression does not match is left unchanged. |
| EmailMask.MaskOfMatch | scripts/changeset-summary.js:322 | A match keeps the first three characters and the three after the chosen `@`, each followed by `...`. |
| EmailMask.MaskShape | scripts/changeset-summary.js:322 | A masked address has thirteen characters: three kept, `...@`, three kept, `...`. |
| EmailMask.ValidEmailMasked | scripts/changeset-summary.js:322 | A valid address with three or more characters on each side of its `@` is masked to those characters. |
| EmailMask.ShortValidEmailKept | scripts/changeset-summary.js:322 | A valid address with fewer than three characters on either side is not masked. |
| Changeset.Named | scripts/changeset-summary.js:275 | `.filter(Boolean)` keeps exactly the present, non-empty names. |
| Changeset.PlaceholderOnlyOnFailure | scripts/changeset-summary.js:270-284 | The placeholder appears when detection throws, and otherwise only if a package really has that name. An empty detected list stays empty. |
| Changeset.NamedKeepsAll | scripts/changeset-summary.js:275 | Present, non-empty names are all kept, in order. |
| Changeset.ChangesetJoin | scripts/changeset-summary.js:288-293 | The changeset is `---`, the package lines (one empty line when there are none), `---`, an empty line and the brief with a final newline, joined by newlines. |
| Changeset.ChangesetLines | scripts/changeset-summary.js:288-293 | Read line by line, the file is `---`, one line per package (or one empty line), `---`, an empty line, then the lines of the brief and a final empty piece. |
| CurrentGenerator.ProcessedMembers | scripts/changeset-summary.js:61-63 | A commit is recorded iff some chunk, having at least four lines, reads as it. |
| CurrentGenerator.ProcessedAppend | scripts/changeset-summary.js:61-63 | The loop keeps the order of the chunks: a concatenation records the commits of each part in turn. |
| CurrentGenerator.ProcessedAllRead | scripts/changeset-summary.js:61-69 | When every chunk reads as a commit, exactly those commits are recorded, in order. |
| CurrentGenerator.ProcessedRoundTrip | scripts/changeset-summary.js:16-69 | Formatting well-formed commits as a log and reading it back records the same commits, in order, with their bodies trimmed. |
| CurrentGenerator.Aggregate.constructor | scripts/changeset-summary.js:31-59 | An empty map, empty role sets, and an empty list per declared category. |
| CurrentGenerator.Aggregate.AddAuthor | scripts/changeset-summary.js:71-81 | The author write, applied to the map state, leaves the category lists alone. |
| CurrentGenerator.Aggregate.AddCoAuthor | scripts/changeset-summary.js:94-108 | The trailer write, applied to the map state, leaves the category lists alone. |
| CurrentGenerator.Aggregate.Push | scripts/changeset-summary.js:139-146 | The entry is appended to its category's list only. |
| CurrentGenerator.RecordTrailers | scripts/changeset-summary.js:83-110 | One trailer write per co-author read from the body, in order. |
| CurrentGenerator.RecordCommit | scripts/changeset-summary.js:61-147 | One commit adds its writes to the map state and its entry to the routed lists. |
| CurrentGenerator.AnalyzeChunk | scripts/changeset-summary.js:61-147 | One turn of the loop skips a chunk with fewer than four lines and records any other, keeping the map state and the routed lists equal to those of the chunks seen so far. |
| CurrentGenerator.Analyze | scripts/changeset-summary.js:61-147 | After the loop the map is the replay of every recorded commit's writes, and each list holds the entries routed to its category. |
| CurrentGenerator.EventsAuthorships | scripts/changeset-summary.js:71-81 | Each recorded commit writes exactly one authorship. |
| CurrentGenerator.CommitsAddUp | scripts/changeset-summary.js:72-79 | The `commits` over the whole map add up to the number of recorded commits. |
| CurrentGenerator.EveryCommitFiledOnce | scripts/changeset-summary.js:139-146 | Every routed commit is filed under exactly one category, so the lists add up to the routed commits. |
| CurrentGenerator.EntriesInCharacterized | scripts/changeset-summary.js:139-146 | A category's list holds an entry iff a commit routed that entry there. |
| CurrentGenerator.BuildContributors | scripts/changeset-summary.js:172-213 | The contributors section is built as the specification function of the map state says. |
| CurrentGenerator.BuildSummary | scripts/changeset-summary.js:151-228 | The summary is built as the specification function of the routes, the contributors, the chunk count and the stat says. |
| CurrentGenerator.AppendSections | scripts/changeset-summary.js:164-170 | The category loop appends a titled block, entries joined by newlines, for each non-empty category, in declaration order. |
| CurrentGenerator.FiledMembers | scripts/changeset-summary.js:164-170 | The listed categories are exactly the declared ones with at least one entry. |
| CurrentGenerator.SectionsAreFiledBlocks | scripts/changeset-summary.js:164-170 | The category loop writes the blocks of the non-empty categories, in declaration order. |
| CurrentGenerator.CategoryBlocks | scripts/changeset-summary.js:164-170 | The summary has a block for a category iff some commit was routed there, in declaration order. |
| CurrentGenerator.OverviewFromStat | scripts/changeset-summary.js:155-160 | With git's stat text, the overview reports the summary line's numbers (`0` for an absent clause), and File Changes is that line. |
| CurrentGenerator.OverviewOfEmptyStat | scripts/changeset-summary.js:155-218 | An empty diff reports `0` three times and `Multiple files affected`. |
| CurrentGenerator.CountCategories | scripts/changeset-summary.js:311-314 | Each declared key is paired with the length of its list. |
| CurrentGenerator.MaskContributors | scripts/changeset-summary.js:320-325 | The metadata contributors are the map entries in insertion order, with masked e-mails. |
| CurrentGenerator.BuildMetadata | scripts/changeset-summary.js:301-327 | The metadata record is what the specification function of the run's values says. |
| CurrentGenerator.Assemble | scripts/changeset-summary.js:151-327 | The summary, changeset and metadata are those of the recorded commits. |
| CurrentGenerator.Generate | scripts/changeset-summary.js:6-327 | One run gives the specified report for the given git outputs. |
| CurrentGenerator.CountsSum | scripts/changeset-summary.js:311-314 | The category counts add up to the commits filed in those categories. |
| CurrentGenerator.RosterSize | scripts/changeset-summary.js:317-319 | `contributors.size` equals the size of the key order and of the `all` set. |
| CurrentGenerator.MetadataFacts | scripts/changeset-summary.js:301-327 | The metadata keys the counts in declaration order and sums them to the routed commits. It also reports the sizes of the map and the role sets, and lists each entry in key order under its key's name with a masked e-mail. |
| CurrentGenerator.RunCounts | scripts/changeset-summary.js:305 | `commitCount` counts every non-blank chunk, skipped or not. The category counts and the `commits` fields both add up to the recorded commits. |
| CurrentGenerator.ChangesetOfRun | scripts/changeset-summary.js:266-293 | Read line by line, the current changeset is the frontmatter of the detected packages over the lines of the whole summary. |
| LegacyGenerator.ProcessedLegacyMembers | scripts/generate-changeset-summary.js:59-61 | A commit is processed iff some chunk, having at least two lines, reads as it. |
| LegacyGenerator.ProcessedLegacyAppend | scripts/generate-changeset-summary.js:59-61 | The loop keeps the order of the chunks: a concatenation processes the commits of each part in turn. |
| LegacyGenerator.ProcessedLegacyAllRead | scripts/generate-changeset-summary.js:59-65 | When every chunk reads as a commit, exactly those commits are processed, in order. |
| LegacyGenerator.ProcessedLegacyRoundTrip | scripts/generate-changeset-summary.js:19-65 | Formatting well-formed commits as a log and reading it back processes the same commits, in order, with their bodies trimmed. |
| LegacyGenerator.LegacyRouteNamed | scripts/generate-changeset-summary.js:98-100 | A legacy routing that succeeds names a category of the legacy table, never `other`. |
| LegacyGenerator.LegacyRouteFailure | scripts/generate-changeset-summary.js:99-107 | A failing routing carries the commit's subject. |
| LegacyGenerator.CollectCharacterized | scripts/generate-changeset-summary.js:59-108 | A sequence of steps succeeds iff every step does. On success it gives every step's value. Otherwise it gives the error of the first failing step. |
| LegacyGenerator.FileAllCharacterized | scripts/generate-changeset-summary.js:59-108 | The filing succeeds iff every commit routes, and otherwise fails with the first failing commit's error. |
| LegacyGenerator.FailureSticks | scripts/generate-changeset-summary.js:59-108 | Once a commit fails, the run fails with its error whatever follows. |
| LegacyGenerator.Ledger.constructor | scripts/generate-changeset-summary.js:37-56 | An empty list per legacy category. |
| LegacyGenerator.Ledger.Push | scripts/generate-changeset-summary.js:100 | The entry is appended to its category's list only. |
| LegacyGenerator.FileCommit | scripts/generate-changeset-summary.js:59-108 | One commit is filed, or its error is returned exactly when the filing fails. |
| LegacyGenerator.FileCommits | scripts/generate-changeset-summary.js:59-108 | The loop returns the specified error when the filing fails. Otherwise each list holds the entries routed to its category. |
| LegacyGenerator.LegacyEveryCommitFiledOnce | scripts/generate-changeset-summary.js:98-103 | With no commit routed to `other`, the legacy lists add up to the routed commits. |
| LegacyGenerator.AppendBlocks | scripts/generate-changeset-summary.js:128-134 | The category loop appends the block of each non-empty legacy category, in declaration order. |
| LegacyGenerator.BuildLegacySummary | scripts/generate-changeset-summary.js:114-149 | The summary is title, introduction, overview, category blocks, Technical Details and For Reviewers, as the specification function says. |
| LegacyGenerator.BriefOfThree | scripts/generate-changeset-summary.js:166 | The brief of three newline-free paragraphs and any tail is those three paragraphs. |
| LegacyGenerator.LegacyBriefFixed | scripts/generate-changeset-summary.js:166 | The legacy brief is always the title, the introduction and `## Overview`, whatever the commits. |
| LegacyGenerator.GenerateLegacy | scripts/generate-changeset-summary.js:10-214 | One run gives the specified report or failure. |
| LegacyGenerator.LegacyRunFails | scripts/generate-changeset-summary.js:99-107 | A run fails iff some processed commit cannot be filed, with the subject of the first such commit. |
| LegacyGenerator.LegacyCrashCause | scripts/generate-changeset-summary.js:68-107 | A commit stops the run iff every reading of its subject has an empty type or the type `other`. |
| LegacyGenerator.LegacyRunSucceeds | scripts/generate-changeset-summary.js:98-196 | A successful run files every commit once, and its changeset is the frontmatter above the fixed brief. |

## Left out

- Running git and pnpm (`execSync`), `JSON.parse` of the pnpm output, the 10 MB and 5 MB output buffers: their outputs are parameters, and a failed detection is `None`.
- The file system: directories, run directories, the summary, changeset and metadata files, the symlink-else-copy fallback, the error log. These are I/O with nothing to prove beyond the calls.
- Console output and `process.exit(1)`: a legacy failure is the `Failure` outcome of the run.
- `new Date()`, `Date.now()` and `Math.random()`: the timestamp and the changeset id are parameters. The model does not build the run directory name from them.
- `JSON.stringify` of the metadata: the model builds the record, not its text.
- An exception thrown by git itself in either generator (for example, a missing branch) is not modelled. Only the legacy `categories.other` exception is.
- `localeCompare` is modelled as code-point order on names, since it depends on the locale.
- JavaScript strings are sequences of UTF-16 code units, and the model counts characters. For text outside the Basic Multilingual Plane this changes two things. The `< 100` length test can give a different answer. The `.{3}` groups of the e-mail mask (`scripts/changeset-summary.js:322`, the `3` and `i + 4` offsets in `EmailMask`) take code units in the source, so they can split a surrogate pair that the model keeps whole.
- Contributors.SortCorrect: states that the result is ordered and a permutation of the input, but not that it is stable. `Array.prototype.sort` is stable, so comparator-equal entries keep their arrival order. The model's insertion sort does keep that order, but no lemma states it.
- CoAuthors.RematchAt: the second, non-global match of a collected text is proved to succeed. It is not proved to give back the same groups as the first match.
- The commit hash field, `mainRef` and `devRef` are read but never affect the legacy outputs. In the current generator the refs are parameters copied into the metadata.
- `packages/utils/src/formatters.ts`, `apps/bvbrc-legacy/index.js`, the ESLint configurations and `scripts/preinstall.js` are not part of this model.
