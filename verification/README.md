# Verified models of the repository's import analysis, role import and seeding algorithms

The repository's scripts contain a handful of real algorithms between the I/O: two cycle detectors
over import graphs, a reachability walk, a CSV reader, a de-duplicating importer with a paginated
fetcher, a shuffle, two lexical scanners, a bounded search for free usernames and a re-runnable data
migration. This project states in Dafny what each of them computes and proves it for all inputs.

| file | models |
|---|---|
| `ImportGraph.dfy`, `ResolvedImports.dfy` | directed graphs, walks, reachability, cycles; what import specifiers resolve to |
| `TarjanState.dfy`, `NoCyclicImports.dfy` | Tarjan's components and the issue count of `lint-no-cyclic-imports.ts` |
| `GraphConstruction.dfy` | the graph that lint builds from resolved imports |
| `BcCycles.dfy`, `NamedPairs.dfy`, `ReportedOnce.dfy` | the cycle-extracting depth-first search of `check-bc-cycles.ts`, which imports its report names, and how often |
| `DetectorAgreement.dfy` | both detectors on the same graph |
| `DependencyWalk.dfy` | the work list and the dead-file report of `_walk-bc-deps.ts` |
| `Csv.dfy`, `RoleTitles.dfy`, `RoleTable.dfy`, `RoleReruns.dfy`, `EscoSweep.dfy` | `parseCsv`, `collect`, `replaceSource`/`main`, repeated runs and the ESCO sweep of `import-roles.ts` |
| `Shuffle.dfy` | Fisher-Yates in `seed-connection-requests.ts` |
| `StripFile.dfy`, `StripTokens.dfy` | the comment and string stripper of `lint-magic-numbers.ts`, and what it keeps of a text |
| `ParamLists.dfy`, `ParamBrackets.dfy` | the parameter-list scanner of `lint-boolean-trap.ts`, and which commas separate |
| `Usernames.dfy`, `UsernameLaws.dfy` | `username.seed.ts`, and the name for every address |
| `LinkMigration.dfy`, `LinkKeys.dfy` | `migrate-profile-links-to-sections.seed.ts`, and what its dedupe keys tell |
| `Results.dfy`, `Sequences.dfy`, `Runs.dfy`, `StringLiterals.dfy`, `Whitespace.dfy` | shared datatypes, facts about sequences, collapsing runs, string literals, trimming |

Objects that the scripts update in place are classes (`Tarjan`, `CycleSearch`, `RoleTitleTable`,
`Sweep`, `UserTable`, `LinkStore`), and loops are methods with invariants. Each method is tied to a
function or a predicate about its inputs, and the lemmas are about those. `hide` statements keep
definitions that a proof does not need away from the solver.

Conventions of the model:

- A graph maps a node to the sequence of its imports, in the iteration order of the `Set`. Nodes are
  an uninterpreted type: the scripts compare them only for equality. They also test them for being
  the empty string, which no file or context name is; so `if (!w) break` in `strongconnect` can only
  mean an empty stack, and the height invariant of `PopComponent` excludes that.
- Laws name characters, page sizes and numbers of attempts as the scripts do, in definitions that the
  models of the code do not share.
- A JavaScript `Set` or `Map` whose order matters is a duplicate-free sequence (`visited`, the keys
  of `collect`).
- `foldRoleText`, `toLowerCase`, `Math.random`, the file system, the ESCO API and what each taxonomy
  parses to are parameters.

## Where the code and its comments differ

- `lint-no-cyclic-imports.ts` says a file importing itself fails; graph construction drops such imports
  (lines 89 and 94). `SelfImportPasses` gives a file that only imports itself and passes; in general a
  file counts iff it is on a cycle with another file (`CountsIffWithOther`, `Lint`). The theorems about
  Tarjan's algorithm are about any input graph, with or without self edges.
- `check-bc-cycles.ts` says the output names every offending pair. `NotEveryPairIsNamed` gives three
  contexts for which it does not. It does, in whatever order the contexts come, iff any two contexts
  that import each other, however indirectly, are joined by exactly one simple walk
  (`EveryPairNamedIff`, for a single component `ComponentNamedIff`). Contexts that import each other
  directly are always named side by side (`MutualImportsNamed`), and no cyclic component goes
  unreported (`ComponentHasReportedCycle`).
- `import-roles.ts` says that in the `all` order ESCO wins overlapping titles. From an empty table it
  does (`AllThenAnyRuns`); in general exactly for the titles no other source holds beforehand
  (`EscoWinsIffFree`), and importing any other source on its own first reaches a table where it does
  not (`FirstImportKeeps`).
- The same script claims idempotency. Two `all` runs settle any table (`TwoRunsSuffice`). One is enough
  iff the table holds no stale title that only a source earlier in the order could replace
  (`OneRunSufficesIff`; `StrandedByOneRun` shows such a title at work).
- `parseCsv` takes any delimiter. Printed text is read back for all documents exactly if the
  delimiter is one character other than quote, LF and CR (`ReadsBackIffPlain`), and line-wise
  composition fails for the delimiter LF only (`JoinsUnlessDelimiterIsLineFeed`).
- `stripFile` in `lint-magic-numbers.ts` knows no regular expressions: behind `/"` or `/'` the rest of
  the line is blanked up to the next such quote (`QuoteAfterSlashBlanksLine`), as happens to
  `.replace(/"/g, '&quot;')` in `og-image.service.ts`, so numbers there go unnoticed.
- In the link migration, an existing item whose kind contains `|` can hide a link that is not there
  and that is then never brought (`SeparatorHidesLink`). All links of all users arrive iff every such
  item stands beside the link it could be taken for (`SeenMeansHeldIff`, `AllLinksArriveIff`).

## Model

| member | source | states |
|---|---|---|
| TarjanState.EnterKeepsInv | scripts/lint-no-cyclic-imports.ts:107-109 | entering a white node that every open call's node reaches keeps the invariant: `onStack` is exact, stack indexes grow strictly, lower stack nodes reach higher ones, every stack node reaches an open call's node of no larger index, finished nodes have no white successor, components are complete and in order |
| TarjanState.TreeEdgeKeepsExploring | scripts/lint-no-cyclic-imports.ts:113-119 | taking over the low-link of a recursive call keeps it a lower bound for all edges to older stack nodes and the index of a reachable stack node |
| TarjanState.BackEdgeKeepsExploring | scripts/lint-no-cyclic-imports.ts:120-123 | the same for lowering it to the index of a stack node |
| TarjanState.LeaveKeepsInv | scripts/lint-no-cyclic-imports.ts:125-126 | a node whose low-link is below its index stays on the stack when its call ends, and everything above it still reaches an older open call |
| TarjanState.PoppedIsComponent | scripts/lint-no-cyclic-imports.ts:126-136 | what is popped is exactly a class of mutual reachability |
| TarjanState.EmitKeepsInv | scripts/lint-no-cyclic-imports.ts:125-137 | emitting it keeps the invariant, and edges out of it lead to components emitted before |
| NoCyclicImports.Tarjan.StrongConnect | scripts/lint-no-cyclic-imports.ts:106-138 | every call keeps the invariant, leaves older records and stack entries alone, terminates because unvisited keys shrink, and either emits its node or leaves a reachable low-link |
| NoCyclicImports.Tarjan.PopComponent | scripts/lint-no-cyclic-imports.ts:127-136 | the do-while loop pops down to the node and clears `onStack` of what it pops, nothing else |
| NoCyclicImports.Tarjan.Run | scripts/lint-no-cyclic-imports.ts:140-142 | for every graph and key order the stack ends empty and `sccs` partitions the keys, two keys sharing a component iff each reaches the other, in reverse topological order |
| NoCyclicImports.FinishedRun | scripts/lint-no-cyclic-imports.ts:101-142 | the invariant without open calls says all of that |
| NoCyclicImports.Tarjan.CountIssues | scripts/lint-no-cyclic-imports.ts:144-148 | `cycles` are as many as components of more than one file, `selfLoops` as many as files that import themselves, and the total adds them; it is 0 iff the graph has no directed cycle |
| NoCyclicImports.OnCycleIffReported | scripts/lint-no-cyclic-imports.ts:144-146 | a file is on a cycle iff its component has another file or it imports itself |
| NoCyclicImports.NoIssuesIffAcyclic | scripts/lint-no-cyclic-imports.ts:148 | no issue iff no closed walk |
| GraphConstruction.Build | scripts/lint-no-cyclic-imports.ts:81-97 | exactly the scanned files are keys; each gets the other files its from-imports or its bare imports name, each once, in the order of their first match, from-imports before bare ones |
| GraphConstruction.NoSelfImportersFound | scripts/lint-no-cyclic-imports.ts:146 | on a graph built that way no file is found to import itself |
| GraphConstruction.CountsIffWithOther | scripts/lint-no-cyclic-imports.ts:144 | a file, importing itself or not, lies in a counted component iff the imports put it on a cycle with another file |
| GraphConstruction.Lint | scripts/lint-no-cyclic-imports.ts:81-148 | from matches to count: no issue iff no two different files reach each other in the graph of all from-imports and bare imports |
| GraphConstruction.SelfImportPasses | scripts/lint-no-cyclic-imports.ts:8-9 | a file that imports only itself is not found |
| BcCycles.BackEdge | scripts/check-bc-cycles.ts:75-78 | on meeting a node of the stack, indexOf succeeds and the slice is a simple closed walk along real edges |
| BcCycles.VisitKeepsInv | scripts/check-bc-cycles.ts:73-86 | every call keeps: `visiting` is the set of the stack, the stack is a path without repeats, each finished node's successors finished before it unless the edge closes a reported cycle, reported cycles are simple; the node ends finished or reported |
| BcCycles.VisitAllKeepsInv | scripts/check-bc-cycles.ts:82 | the same over a list of nodes |
| BcCycles.FinishedRun | scripts/check-bc-cycles.ts:88 | the driver loop finishes every key |
| BcCycles.EveryCycleIsHit | scripts/check-bc-cycles.ts:73-88 | every directed cycle, whatever the visiting order, has an edge that closes a reported cycle |
| BcCycles.ClosesIffNotFinishedEarlier | scripts/check-bc-cycles.ts:74-79 | an import is the last step of a reported cycle iff its target did not finish before its source |
| BcCycles.ComponentHasReportedCycle | scripts/check-bc-cycles.ts:73-88 | every context on a cycle has a reported cycle inside its strongly connected component |
| BcCycles.NoReportIffAcyclic | scripts/check-bc-cycles.ts:92-95 | `cycles` is empty iff the graph is acyclic |
| BcCycles.NotEveryPairIsNamed | scripts/check-bc-cycles.ts:73-86 | a graph with an offending pair that is in no reported cycle |
| NamedPairs.EveryPairNamedIff | scripts/check-bc-cycles.ts:11-12 | every order of the keys gives a report naming every offending pair iff contexts that reach each other are joined by exactly one simple walk |
| NamedPairs.ComponentNamedIff | scripts/check-bc-cycles.ts:11-12 | the same within the component of one context |
| NamedPairs.VisitPlaces | scripts/check-bc-cycles.ts:73-86 | every step of every reported cycle goes one level down the search tree or back up it |
| NamedPairs.MutualImportsNamed | scripts/check-bc-cycles.ts:5-6 | two contexts importing each other directly are consecutive in a reported cycle |
| ReportedOnce.EachCloserReportedOnce | scripts/check-bc-cycles.ts:75-79 | no two reported cycles end with the same import: each import back to the stack adds one cycle |
| BcCycles.CycleSearch.Dfs | scripts/check-bc-cycles.ts:73-86 | the method on fields computes the state function `Visit` |
| BcCycles.CycleSearch.Run | scripts/check-bc-cycles.ts:68-88 | `visiting` and `stack` end empty, all reported cycles are simple, and none is reported iff there is none |
| DetectorAgreement.IssueIffReportedCycle | scripts/lint-no-cyclic-imports.ts:144-146 | a component counts as an issue iff the other detector reports a cycle inside it |
| DetectorAgreement.ReportedCycleInOneComponent | scripts/check-bc-cycles.ts:77 | a reported cycle lies inside one component |
| DetectorAgreement.RunBoth | scripts/lint-no-cyclic-imports.ts:148 | on one graph, no issue iff no reported cycle iff acyclic |
| DependencyWalk.Reachable | scripts/_walk-bc-deps.ts:77-90 | the result is exactly the files reached from the seeds by import chains, or an unreadable file that is reached; terminates despite repeated queue entries |
| DependencyWalk.Enqueue | scripts/_walk-bc-deps.ts:84-87 | the inner loop queues resolved imports that are not visited, and only those |
| DependencyWalk.ReachedIsLeast | scripts/_walk-bc-deps.ts:77-90 | every set with the seeds that is closed under imports contains what is reached |
| Sequences.FilteredPositions | scripts/_walk-bc-deps.ts:100-119 | picking files keeps those that satisfy the test, each as often as listed and in the order listed |
| DependencyWalk.ReportDead | scripts/_walk-bc-deps.ts:100-119 | a file is reported dead iff no import chain from a routes or composition file reaches it |
| Csv.ParseCsv | src/scripts/import-roles.ts:78-114 | the loop computes the recursive reader |
| Csv.RowEndSeparates | src/scripts/import-roles.ts:101-106 | in any state, a row end outside quotes splits the reading of the text in two |
| Csv.JoinsUnlessDelimiterIsLineFeed | src/scripts/import-roles.ts:98-106 | `parse(a + LF + b)` is `parse(a) ++ parse(b)` for all `a` ending outside quotes iff the delimiter is not LF |
| Csv.RowEndsAreAlike | src/scripts/import-roles.ts:101-102 | LF, CR and CR LF are interchangeable outside quotes |
| Csv.ReadInvertsShow | src/scripts/import-roles.ts:78-114 | any document, each cell made of quoted and (if plain) bare pieces, each line with any row end, is read back as its rows with a non-empty cell |
| Csv.OpenQuoteEndsWithText | src/scripts/import-roles.ts:86-112 | a quote that is never closed is read as if it were closed at the end of the text |
| Csv.ReadsBackIffPlain | src/scripts/import-roles.ts:96-101 | the exact delimiters for which that holds |
| Csv.RoundTrip | src/scripts/import-roles.ts:76-114 | reading inverts the quote-everything and the quote-if-needed printer of section 2 of RFC 4180 |
| RoleTitles.CleanIdempotent | src/scripts/import-roles.ts:120 | cleaned labels have single blanks, none at the ends, and cleaning them again changes nothing |
| RoleTitles.CleanJoinsWords | src/scripts/import-roles.ts:120 | the words of a label survive unchanged, joined by single blanks |
| RoleTitles.Collect | src/scripts/import-roles.ts:117-130 | for any folding function, exactly one title for each row's language and folded cleaned label of length 2 or more, ordered by first occurrence; its fields are those of the first preferred row or else the first row, with the cleaned label |
| RoleTitles.CollectionUnique | src/scripts/import-roles.ts:117-130 | that specification has one solution |
| RoleTitles.CollectTwice | src/scripts/import-roles.ts:117-130 | collecting twice is collecting once |
| RoleTitles.CollectedFromOneSource | src/scripts/import-roles.ts:116-130 | titles keep their source and have distinct keys |
| Whitespace.TheSpaces | src/scripts/import-roles.ts:120 | the characters that count as whitespace, one by one |
| RoleTable.SameLabelOtherLanguage | src/scripts/import-roles.ts:139-142 | a title is left out only if one of the same language and folded label is there; titles that differ in language both stay |
| RoleTable.TableIsKeyed | src/scripts/import-roles.ts:134-143 | no two titles of a table filled from empty share language and folded label |
| RoleTable.RoleTitleTable.CreateMany | src/scripts/import-roles.ts:139-142 | inserts rows whose key is free and counts them |
| RoleTable.RoleTitleTable.ReplaceSource | src/scripts/import-roles.ts:134-147 | deleting and inserting in batches of 5000 equals replacing the source at once; the count is exact |
| RoleTable.InsertedInBatches | src/scripts/import-roles.ts:137-143 | batch boundaries do not matter |
| RoleTable.ReplacedAt | src/scripts/import-roles.ts:135-141 | key by key: another source's title stays, else the first new row with the key, else nothing |
| RoleTable.RoleTitleTable.Import | src/scripts/import-roles.ts:325-328 | a run replaces its sources in the order of `main` |
| RoleTable.EmptyTableFillsUp | src/scripts/import-roles.ts:134-147 | after any sequence of imports into an empty table each key belongs to the first source imported that has it |
| RoleTable.ReimportChangesNothing | src/scripts/import-roles.ts:134-143 | importing sources again, in any order, leaves a table filled from empty unchanged |
| RoleTable.AllThenAnyRuns | src/scripts/import-roles.ts:322-328 | `all` gives each key to the first of ESCO, CBO, O*NET, curated; any later runs change nothing |
| RoleTable.EscoWinsIffFree | src/scripts/import-roles.ts:322-328 | on any table, `all` gives an ESCO title to ESCO iff no other source held it before |
| RoleReruns.SettledIffFixed | src/scripts/import-roles.ts:134-147 | no import of a single source changes the table iff each key holds its source's current title, or no source has one |
| RoleReruns.OneRunSufficesIff | src/scripts/import-roles.ts:28-31 | from any table, no runs after one `all` run change anything iff no key holds a stale title that an earlier source but no later one has |
| RoleReruns.TwoRunsSuffice | src/scripts/import-roles.ts:28-31 | from any table, no runs after two `all` runs change anything |
| RoleReruns.StrandedByOneRun | src/scripts/import-roles.ts:28-31 | a stale CBO title that ESCO now has is gone after one run and ESCO's after two |
| RoleReruns.FirstImportKeeps | src/scripts/import-roles.ts:28-31 | the titles of a source imported on its own first stay with it in a later `all` run |
| EscoSweep.Sweep.FetchPage | src/scripts/import-roles.ts:175-190 | a page is delivered with the total, unless attempts 1, 2 and 3 all fail |
| EscoSweep.Sweep.FetchRows | src/scripts/import-roles.ts:195-213 | splitting failing pages 50/10/1 yields every row of the span that some page brings, once and in order, and counts the others; terminates |
| EscoSweep.Sweep.Run | src/scripts/import-roles.ts:215-236 | whatever requests fail, the sweep fails iff none for the first 50 rows succeeds, otherwise brings home, in order, exactly the rows i for which one of three attempts at page i/50 of 50, i/10 of 10 or i of 1 succeeds, and counts the others |
| EscoSweep.OnlyPoisonedSkipped | src/scripts/import-roles.ts:192-194 | if pages with a poisoned record fail and other single rows do not, exactly the poisoned records are skipped |
| EscoSweep.Aligned | src/scripts/import-roles.ts:201-209 | page numbers are exact at every limit |
| EscoSweep.GoodListsDelivered | src/scripts/import-roles.ts:192-213 | the rows brought home are those that can be had, each once, in growing order |
| EscoSweep.EveryRecordAccounted | src/scripts/import-roles.ts:201-211 | rows brought home plus rows skipped are all rows |
| Shuffle.ShuffleCopy | prisma/seed-connection-requests.ts:23-30 | the loop applies the choices to a fresh copy; the input is unchanged |
| Shuffle.ShuffledPermutes | prisma/seed-connection-requests.ts:25-28 | the result is a permutation |
| Shuffle.LastIsPickedFirst | prisma/seed-connection-requests.ts:25-28 | the choice for the last position picks its element, the old last element takes the vacant place, and the rest is shuffled by the other choices |
| Shuffle.EveryPermutationArises | prisma/seed-connection-requests.ts:25-28 | every rearrangement comes from some choices, also with repeated elements |
| Shuffle.OneToOneIffDistinct | prisma/seed-connection-requests.ts:25-28 | different choices give different results iff the elements are distinct |
| Shuffle.ChoiceInterval | prisma/seed-connection-requests.ts:26 | each index is drawn by an interval of length 1/(i+1) |
| Shuffle.EveryChoiceIsDrawn | prisma/seed-connection-requests.ts:26 | every legal choice sequence can be drawn |
| StripFile.Strip | scripts/lint-magic-numbers.ts:59-102 | the nested loops compute the line scanner, at most one flag being set at any time |
| StripFile.StripLine | scripts/lint-magic-numbers.ts:67-98 | the same for one line and the state carried over |
| StripFile.LexLines | scripts/lint-magic-numbers.ts:65-100 | line count is kept and no line grows |
| StripFile.StripIsRun | scripts/lint-magic-numbers.ts:59-102 | the scanner with look-ahead writes what a machine reading one character at a time writes |
| StripFile.StripComposes | scripts/lint-magic-numbers.ts:61-68 | a text ending outside templates and block comments is stripped independently of what follows |
| StripTokens.StripKeepsCodeOnly | scripts/lint-magic-numbers.ts:73-96 | of tokens in front of any rest: code and line ends stay, literals, closed or left open, become blanks and a closing quote, comments and escapes vanish, and the rest is stripped as if alone |
| StripTokens.EveryTextIsTokens | scripts/lint-magic-numbers.ts:67-98 | every text is a sequence of such tokens |
| StripTokens.StripOfAnyText | scripts/lint-magic-numbers.ts:59-102 | so the result for any text is what is kept of its tokens |
| StripTokens.QuoteAfterSlashBlanksLine | scripts/lint-magic-numbers.ts:80-93 | a quote right after a slash, as in a regular expression, blanks the line behind it if it does not occur again there |
| ParamLists.ExtractParenBody | scripts/lint-boolean-trap.ts:43-63 | the loops compute the scan for the closing parenthesis |
| ParamLists.CloseIsFirstMatch | scripts/lint-boolean-trap.ts:44-61 | the scan stops at the first parenthesis outside strings that matches; null iff there is none |
| ParamLists.BodyIsFound | scripts/lint-boolean-trap.ts:43-63 | a body with nested parentheses and strings is found whatever surrounds it |
| ParamLists.SplitParams | scripts/lint-boolean-trap.ts:65-80 | the loop yields the trimmed, non-empty pieces between bare commas |
| ParamLists.JoinAfterCut | scripts/lint-boolean-trap.ts:69-79 | the pieces join up to the body again, for every body |
| ParamLists.CutInvertsJoin | scripts/lint-boolean-trap.ts:69-79 | pieces joined by commas are recovered iff none has a bare comma and all but the last close what they open |
| ParamBrackets.JoinInvertedIffBalanced | scripts/lint-boolean-trap.ts:70-75 | the same told by counts: at every comma in a piece the opening and closing ones among `()[]{}<>` differ in number, and over every piece but the last they agree |
| ParamBrackets.NestedParamsSplit | scripts/lint-boolean-trap.ts:65-80 | parameters with groups in any of `()`, `[]`, `{}`, `<>`, nested at will, and commas only inside them come out of the joined list trimmed |
| ParamLists.SignatureRoundTrip | scripts/lint-boolean-trap.ts:43-80 | both functions together recover the parameters of a printed list |
| Usernames.GeneratedIsValid | prisma/seeds/dev/username.seed.ts:7-30 | for every address and lower-casing: 3 to 30 characters of `[a-z0-9_]`, no leading and no doubled underscore |
| UsernameLaws.NameOfWords | prisma/seeds/dev/username.seed.ts:7-30 | of the lower-cased local part only `a-z`, `0-9` and `.+-_` matter; its words come out joined by single underscores, filled up with `0` to 3 characters or cut off after 30 |
| UsernameLaws.NameOfNothing | prisma/seeds/dev/username.seed.ts:19-22 | without letters and digits the name is `000` |
| Usernames.WordsAreJoined | prisma/seeds/dev/username.seed.ts:14-17 | words separated by runs of `.+-_` come out joined by single underscores |
| Usernames.OtherCharactersVanish | prisma/seeds/dev/username.seed.ts:15 | any other character leaves no trace |
| Usernames.ValidNameIsKept | prisma/seeds/dev/username.seed.ts:7-30 | a local part that is a valid name is kept as it is |
| Usernames.FindUniqueUsername | prisma/seeds/dev/username.seed.ts:35-60 | the first free one of the base and its 9999 numbered variants, or a failure iff all are taken |
| UsernameLaws.NumberedVariant | prisma/seeds/dev/username.seed.ts:49-52 | a variant ends with its number, starts like the name and keeps as much of it as 30 characters allow |
| Usernames.FailureNeeds9000 | prisma/seeds/dev/username.seed.ts:55-58 | the search can fail only if at least 9000 names are taken |
| Usernames.UserTable.SeedUsernames | prisma/seeds/dev/username.seed.ts:66-116 | names stay unique, other users are untouched, each listed user gets the first variant of the name for the address that is not taken beforehand or by users listed earlier; both counts are exact |
| Usernames.EveryoneIsNamed | prisma/seeds/dev/username.seed.ts:92-116 | with at most 9000 users every one with a non-empty address ends with a valid name |
| LinkMigration.MigrateUser | prisma/data-migrations/migrate-profile-links-to-sections.seed.ts:93-119 | existing items stay in front, new ones have consecutive larger orders, come from the columns in column order and repeat no link, and the keys of all links of the user are there |
| LinkKeys.MigratedAddsWanted | prisma/data-migrations/migrate-profile-links-to-sections.seed.ts:21-26 | exactly the set links whose key no existing item has are added: LinkedIn, GitHub, website, portfolio in this order, with trimmed urls and orders counting from one above the largest, or from 0 |
| LinkMigration.LinkStore.Migrate | prisma/data-migrations/migrate-profile-links-to-sections.seed.ts:81-122 | sections exist for the users' resumes and those that had one; existing items stay in front, every new one is a column of a user with that resume and repeats no link, other resumes are untouched, `itemsCreated` counts the new items; if every key is there already nothing changes |
| LinkMigration.NothingToMigrate | prisma/data-migrations/migrate-profile-links-to-sections.seed.ts:109-111 | a user whose keys are all there gets no item |
| LinkMigration.MigrateTwice | prisma/data-migrations/migrate-profile-links-to-sections.seed.ts:81-122 | a second run creates nothing |
| LinkKeys.SeenMeansHeldIff | prisma/data-migrations/migrate-profile-links-to-sections.seed.ts:102 | for the four kinds, a seen key always means the link is there iff every item whose kind is one of them, the separator and more stands beside the link it could be taken for |
| LinkKeys.LinkArrivesIff | prisma/data-migrations/migrate-profile-links-to-sections.seed.ts:106-116 | after the migration a column's link is there iff it was before or its key was not seen |
| LinkKeys.AllLinksArriveIff | prisma/data-migrations/migrate-profile-links-to-sections.seed.ts:93-119 | onto given items every link of every user arrives iff no item hides one |
| LinkKeys.SeparatorHidesLink | prisma/data-migrations/migrate-profile-links-to-sections.seed.ts:102-111 | an item whose kind contains the separator hides a link that is neither there nor brought |

## Left out

- File walking, regex extraction of imports and path resolution: the graph, the import table and the texts are inputs.
- Prisma, Postgres, HTTP and the waiting times between attempts: tables are maps under the stated unique key, rows have no generated ids or timestamps, and which requests succeed is an input.
- How each taxonomy's cells and labels become rows (`splitGenderVariants`, the CBO and O*NET row filters, the curated catalog): row-by-row filters that would add easy members only; the rows are inputs.
- Baselines, command line flags, exit codes, logging and the sorting of printed dead files.
- `isBooleanParam`, `extractDomain` and the number pattern of the magic-number lint: single regular expressions.
- Tarjan.Run: does not say in which order the nodes of one component are listed, nor which of several possible emission orders of unrelated components occurs.
- Shuffle.Choice: uses real numbers for `Math.random()`; the 53-bit granularity of the drawn number is not modelled.
- Whitespace outside JavaScript's `\s` class and Unicode case mapping: `IsSpace` lists the class, `lower` is any function.
