# Wave planning and migration lint, verified

Two parts of the repository are modelled and proved here.

**The product planner and what runs its plans.** A cost calculation job collects the products
of its scope with everything they depend on (`DagBuilder`), plans them in waves so that every
product comes after its upstream products (`WavePlanner`), cuts the waves into numbered chunks
(`ChunkPacker`), and releases wave after wave to workers over queues that may repeat and
reorder messages (`Dispatch`).

- `Dependencies` defines walks, chains and cycles of the dependency relation, without
  reference to any planner. `WavePlanner.IsPlan` says what a plan has to be in those terms:
  wave k lists the products whose longest chain of upstreams has k steps, and Cyclic lists the
  products from which an upstream walk meets a cycle. `PlanWaves` is proved to return exactly
  such a plan, for every graph that calls on a `DependencyGraph` can build, whatever order the
  maps are walked in.
- `PlanTheorems` derives what follows from `IsPlan` alone: uniqueness, conservation,
  topological order, the wave number as a recurrence, optimality, and the shape of Cyclic.
- `GraphChanges` compares plans of related graphs: sub-graphs, added edges, other orders of
  construction.
- `Dispatch` is a state machine with one step for each database statement or publish. Its
  invariant gives safety over whole runs: no chunk is handed to the finance service before the
  chunks of all upstream products have ended, however events repeat, race or get lost.
  `JobRuns` shows that the steps suffice: every planned job has a run that finishes it.

**The migration lint.** `SqlText` gives a grammar of tokens for SQL text and proves that it
divides every text in exactly one way; `SqlStrip` proves that the one-pass scanner `strip_sql`
goes from token to token and computes their rendering; `StripTheorems` proves line fidelity,
independence of blanked text, and exactly when stripping twice is the same as stripping once;
`StripEquations` describes stripping on the text alone and proves that nothing else fits.
`Naming` models `check_naming`, `AllowList` the allow-list parser and the verdict of `run`, up to
the exit code as a statement about the lines of the allow file, and `AllowFormat` proves which
allow lines are accepted and that entries in the documented format read back.

Integers are unbounded, standing for Go's `int64` and `int`. Go slices and maps and Python
lists and dictionaries are sequences and maps that the methods reassign; the graph, and the
allow entries with their `used` flag, are classes. Iteration over a Go map takes any remaining
key at each step. `slices.Sort` and `sorted` are an insertion sort proved to give the sorted
permutation. Inner loops of `PlanWaves`, `PackChunks`, `Build` and `strip_sql` are methods of
their own, called where the loop stands; `load_allow` maps a parsing function over the lines
and collects the results in its loop.

## Where the code and its comments differ

- The comment at pkg/costcalc/wave_planner.go:76 says that everything unvisited participates
  in a cycle. The code also leaves unvisited every product that only depends on one.
  `UnvisitedOffCycle` gives the smallest example, and `CyclicOnlyOnCycleIff` says exactly when
  the comment is right. The function comment at line 20 of the same file is right as it stands
  (`CyclicIsUpstreamClosed`).
- `strip_sql` applied to its own output can change it: a block comment without a line break
  vanishes and may bring two dashes, a slash and a star, or two literals together.
  `InlineBlockBreaks` gives a family of inputs, and `IdempotentIff` the exact condition on the
  tokens of the text.

## Model

| member | source | states |
|---|---|---|
| ProductGraph.DependencyGraph.constructor | pkg/costcalc/dependency_graph.go:19-24 | A new graph stands for the empty relation. |
| ProductGraph.DependencyGraph.AddNode | pkg/costcalc/dependency_graph.go:27 | Registers one product, changes nothing if it is known, and keeps the edges closed over the products. |
| ProductGraph.DependencyGraph.AddEdge | pkg/costcalc/dependency_graph.go:30-34 | Registers both products and appends to the upstream list, repeats included; the relation gains exactly that dependency. |
| ProductGraph.DependencyGraph.Nodes | pkg/costcalc/dependency_graph.go:37-44 | All products once each, each id smaller than the next, whatever order the map is walked in. |
| Sorting.TextLeqMeaning | scripts/migration_lint.py:132 | The order in which `sorted` puts versions is the dictionary order: a prefix first, otherwise the first difference decides. |
| ProductGraph.DependencyGraph.ViewMeaning | pkg/costcalc/dependency_graph.go:46-50 | The accessors and the relation agree, and upstreams are products of the graph. |
| WavePlanner.PlanWaves | pkg/costcalc/wave_planner.go:21-84 | The result is the plan the dependency relation calls for (longest chains give waves, dependence on a cycle gives Cyclic); the waves are numbered from 0 and each of them and Cyclic is in ascending order of the ids; the in-degree decrement runs once for each distinct edge whose upstream was scheduled. |
| WavePlanner.CountEdges | pkg/costcalc/wave_planner.go:27-42 | In-degrees count distinct upstreams and the reverse lists hold each dependent once, however often edges repeat. |
| WavePlanner.InitialWave | pkg/costcalc/wave_planner.go:44-51 | The first frontier is the sorted list of products without upstreams. |
| WavePlanner.Release | pkg/costcalc/wave_planner.go:62-70 | After a round the in-degrees count the upstreams not yet visited; a product is appended, once, exactly when its last missing upstream was in the round; the decrement has run once for each edge out of the round. |
| WavePlanner.ReleaseStep | pkg/costcalc/wave_planner.go:64-69 | A decremented in-degree was positive, and a product that reaches zero was not in the next frontier before. |
| WavePlanner.Unvisited | pkg/costcalc/wave_planner.go:76-82 | The remainder is the sorted list of unvisited products. |
| WavePlanner.NextLayer | pkg/costcalc/wave_planner.go:62-72 | What a round releases is the next layer of the longest-chain division. |
| Dependencies.EmptyLayerEnds | pkg/costcalc/wave_planner.go:56-82 | When a frontier is empty all later ones would be, and what is left is exactly the products that depend on a cycle. |
| Dependencies.CycleIffLongChain | pkg/costcalc/wave_planner.go:76-82 | A product depends on a cycle iff it has a chain with as many steps as there are products, iff it has chains of every length. |
| Dependencies.Dichotomy | pkg/costcalc/wave_planner.go:76-82 | Every product either has a longest chain or depends on a cycle, never both. |
| PlanTheorems.WaveIsLongestChain | pkg/costcalc/wave_planner.go:17-20 | The bridge from `IsPlan`, which `PlanWaves` establishes, to the theorems below: a product is in wave k iff its longest chain of upstreams has k steps. |
| PlanTheorems.WaveIsOnePlusLatest | pkg/costcalc/wave_planner.go:18-19 | Wave 0 iff no upstream, otherwise one more than the latest wave among the upstreams, all of which are scheduled. |
| PlanTheorems.ExactlyOnePlace | pkg/costcalc/wave_planner.go:53-83 | Every product is in exactly one wave or in Cyclic, and never in both. |
| PlanTheorems.PlanUnique | pkg/costcalc/wave_planner.go:44-51 | A relation has one plan only, so map iteration order cannot show. |
| PlanTheorems.Conservation | pkg/costcalc/wave_planner.go:53-83 | Waves and Cyclic together are a permutation of the products. |
| PlanTheorems.RunIsTopological | pkg/costcalc/wave_planner.go:17-20 | Running the waves in order, each in any permutation, puts every product after all its upstreams and runs exactly the products outside Cyclic. |
| PlanTheorems.CyclicEmptyIffAcyclic | pkg/costcalc/wave_planner.go:76-82 | Cyclic is empty iff the graph has no cycle. |
| PlanTheorems.PlanIsEarliest | pkg/costcalc/wave_planner.go:56-74 | No schedule whatever runs a product before its wave, and none can contain a Cyclic product. |
| PlanTheorems.PlanIsSchedule | pkg/costcalc/wave_planner.go:56-74 | The wave numbers are a schedule of everything outside Cyclic. |
| PlanTheorems.ChainThroughAllWaves | pkg/costcalc/wave_planner.go:56-74 | A dependency chain with as many products as there are waves shows that fewer waves cannot do. |
| PlanTheorems.CyclicIsUpstreamClosed | pkg/costcalc/wave_planner.go:20 | Everything on a cycle is in Cyclic, and a product is in Cyclic iff one of its upstreams is. |
| PlanTheorems.CyclicContainsCycle | pkg/costcalc/wave_planner.go:76-82 | A non-empty Cyclic contains all of some cycle. |
| PlanTheorems.CyclicOnlyOnCycleIff | pkg/costcalc/wave_planner.go:76-82 | Cyclic holds only products on cycles iff nothing off the cycles depends directly on a product on one. |
| GraphChanges.RestrictionKeepsPlaces | pkg/costcalc/wave_planner.go:27-74 | Planning a part that contains its upstreams gives its products the places they have in the whole. |
| GraphChanges.AddEdgeOnlyDelays | pkg/costcalc/dependency_graph.go:30-34 | After AddEdge a Cyclic product stays Cyclic, and a scheduled one is in no earlier wave or becomes Cyclic. |
| GraphChanges.AddEdgeFrame | pkg/costcalc/dependency_graph.go:30-34 | AddEdge(d, u) changes no place of a product that does not depend on d. |
| GraphChanges.AddEdgeClosesCycleIff | pkg/costcalc/dependency_graph.go:30-34 | On an acyclic graph AddEdge(d, u) closes a cycle iff u is d or u already depends on d. |
| GraphChanges.ReplayMeaning | pkg/costcalc/dependency_graph.go:26-34 | A graph remembers exactly the products and edges its calls named, neither order nor number. |
| GraphChanges.CanonicalPlan | pkg/costcalc/wave_planner.go:21-84 | Two call sequences that name the same products and edges, in any order and with any repeats, give equal plans. |
| GraphChanges.BuildAndPlan | pkg/costcalc/wave_planner_test.go:9-18 | Building a graph by any calls and planning it gives the plan of the relation the calls name. |
| GraphChanges.UnvisitedOffCycle | pkg/costcalc/wave_planner.go:76-82 | After AddEdge(1, 1) and AddEdge(2, 1) the plan leaves product 2 in Cyclic, and 2 is on no cycle. |
| DagBuilder.LoadEdges | services/finance-cost-orchestrator/internal/orchestrator/dag_builder.go:283-321 | Exactly the rows whose downstream product is in the batch, each as often as the table holds it. |
| DagBuilder.TakeBatch | services/finance-cost-orchestrator/internal/orchestrator/dag_builder.go:50-58 | The batch holds each unvisited product of the frontier once; all of it is registered and visited, and no edge changes. |
| DagBuilder.AddEdges | services/finance-cost-orchestrator/internal/orchestrator/dag_builder.go:68-75 | The graph gains exactly the loaded edges, and the next frontier is their unvisited upstreams. |
| DagBuilder.Build | services/finance-cost-orchestrator/internal/orchestrator/dag_builder.go:36-79 | The graph of a scope is exactly the upstream closure of the starting products with all its edges; the product list is that closure in ascending order of the ids. |
| DagBuilder.ScopeKeepsPlaces | services/finance-cost-orchestrator/internal/orchestrator/dag_builder.go:33-35 | A narrower scope gives its products the waves and cyclic verdicts of any wider one. |
| ChunkPacker.EffectiveSize | services/finance-cost-orchestrator/internal/orchestrator/chunk_packer.go:40-45 | A positive size within the cap: the requested one if it is proper, the cap if it exceeds the cap, and 50, or a smaller cap, if none is requested. |
| ChunkPacker.PackChunks | services/finance-cost-orchestrator/internal/orchestrator/chunk_packer.go:36-65 | Each wave's chunks hold its products in order, all full but perhaps the last, numbered 1, 2, 3, ... through the whole job; no plan gives no chunks. |
| ChunkPacker.PackedPosition | services/finance-cost-orchestrator/internal/orchestrator/chunk_packer.go:50-61 | Entry x of the i-th chunk of a wave is the wave's product number i * size + x. |
| ChunkPacker.ChunkCount | services/finance-cost-orchestrator/internal/orchestrator/chunk_packer.go:50-61 | As many chunks as the products of a wave need, and no more. |
| ChunkPacker.PackedOnce | services/finance-cost-orchestrator/internal/orchestrator/chunk_packer.go:31-35 | A planned product is in one place of one chunk. |
| ChunkPacker.ScheduledIsPacked | services/finance-cost-orchestrator/internal/orchestrator/chunk_packer.go:31-35 | Every scheduled product is in a chunk of its own wave. |
| ChunkPacker.UpstreamChunkIsEarlier | services/finance-cost-orchestrator/internal/orchestrator/chunk_packer.go:22-35 | An upstream product is in a chunk of an earlier wave with a smaller number. |
| Dispatch.NextOrdered | services/finance-cost-orchestrator/internal/orchestrator/coordinator.go:286-318 | Every step keeps: a wave is released, and a job finalized, only over ended waves. |
| Dispatch.NextTraffic | services/finance-cost-orchestrator/internal/orchestrator/coordinator.go:233-243 | Every step keeps: only chunks of released waves are sent, and only sent chunks are worked on or reported. |
| Dispatch.NextAccounted | services/finance-cost-orchestrator/internal/orchestrator/coordinator.go:294-309 | Every step keeps: a chunk that ended had been sent, unless the job was cancelled at some time. |
| Dispatch.NextCountedOnce | services/finance-cost-orchestrator/internal/orchestrator/repos.go:336-365 | Every step keeps: a chunk's completion is counted at most once. |
| Dispatch.RunInv | services/finance-cost-orchestrator/internal/orchestrator/coordinator.go:269-319 | The invariant holds in every state of every run. |
| Dispatch.UpstreamEndsFirst | services/finance-cost-orchestrator/internal/orchestrator/coordinator.go:245-319 | In every state of every run, a chunk handed to the finance service has the chunk of every upstream of its products ended; unless the job was cancelled at some time, those chunks had themselves been sent to the workers. |
| Dispatch.ProcessedNeverExceedsTotal | services/finance-cost-orchestrator/internal/orchestrator/repos.go:340-350 | However often completions arrive, a job never shows more processed chunks than it has. |
| Dispatch.CountedIsProcessed | services/finance-cost-orchestrator/internal/orchestrator/repos.go:140-160 | Exact accounting in every state of every run: processed chunks, open claims and lost increments together are the counted chunks. |
| Dispatch.NothingLost | services/finance-cost-orchestrator/internal/orchestrator/repos.go:140-160 | If no increment was lost, processed plus open claims is the number of counted chunks, and processed alone once no claim is open. |
| Dispatch.FinalizedMeansAllEnded | services/finance-cost-orchestrator/internal/orchestrator/coordinator.go:311-318 | A job is finalized only when every chunk of every wave has ended. |
| Dispatch.CancelledReleasesNothing | services/finance-cost-orchestrator/internal/orchestrator/coordinator.go:286-318 | As long as a job stays cancelled, no wave is released and it is not finalized. |
| Dispatch.CancellationTouchesQueuedOnly | services/finance-cost-orchestrator/internal/orchestrator/repos.go:291-310 | Cancelling changes queued chunks only: the coordinator fails those of later waves and leaves the others, the finance service skips all of them. |
| Dispatch.SeenWaveIsOver | services/finance-cost-orchestrator/internal/orchestrator/repos.go:318-334 | A wave seen complete has each of its chunks as a success, a partial failure or a failure. |
| JobRuns.JobCanFinish | services/finance-cost-orchestrator/internal/orchestrator/coordinator.go:233-319 | Every job whose waves all have chunks has a run to its end, for any outcomes of the chunks: it is finalized, each chunk shows its outcome, and processed is the number of chunks. |
| JobRuns.PlannedJobCanFinish | services/finance-cost-orchestrator/internal/orchestrator/coordinator.go:233-319 | In particular the job of every packed plan that has a wave. |
| JobRuns.MessagesRepeat | services/finance-cost-orchestrator/internal/orchestrator/coordinator.go:233-243 | A chunk that was handed out can be started, ended, reported and marked again at any time. |
| JobRuns.MarkAfterEnd | services/finance-cost-orchestrator/internal/orchestrator/coordinator.go:233-243 | A chunk marked after its publish can show as dispatched although it has ended already. |
| SqlText.LexingIffTokens | scripts/migration_lint.py:26-57 | Every text divides into tokens in exactly one way, the division loses nothing, and the tokenizer finds it. |
| SqlText.HeadUnique | scripts/migration_lint.py:29-56 | A text has one first token only, whatever follows. |
| SqlText.CloseAt | scripts/migration_lint.py:35 | The first closing mark of a block comment, or -1 when there is none. |
| SqlText.BodyLen | scripts/migration_lint.py:40-47 | A literal's body runs to the first quote that is not one of a pair. |
| SqlText.StartsMeaning | scripts/migration_lint.py:28-56 | The k-th token starts where the texts of the tokens before it end. |
| SqlStrip.StripSql | scripts/migration_lint.py:26-57 | The scanner's output is the stripped text, which `StripIffEquations` describes without tokens; the positions it visits are the places where tokens start, the same for both values of keep_strings. |
| SqlStrip.ScanToken | scripts/migration_lint.py:29-56 | One turn of the main loop takes exactly the first token of what is left: it stops where that token ends and puts out its rendering. |
| SqlStrip.SkipLine | scripts/migration_lint.py:31-33 | A line comment is passed over up to its line break, which stays, or to the end; what was passed over is one whole token. |
| SqlStrip.SkipLiteral | scripts/migration_lint.py:39-53 | The scan stops one past the closing quote of the literal, or at the end of the text when there is none; what was passed over is one whole token. |
| StripTheorems.NewlineCountKept | scripts/migration_lint.py:27 | Stripping keeps exactly the line breaks. |
| StripTheorems.LineFidelity | scripts/migration_lint.py:75-76 | Every token starts on the same line in the text and in both stripped texts, the one after as many line breaks as stand before it in the text, and code characters are unchanged. |
| StripTheorems.ReportedLine | scripts/migration_lint.py:82-104 | Every character of a stripped text that is not a line break stands in the input on the line computed for it, which is one more than the line breaks before it in the input. |
| StripTheorems.LinenoMeaning | scripts/migration_lint.py:75-76 | Lines are numbered from 1, and the number grows by one with each line break. |
| StripTheorems.BlankedTextIsInvisible | scripts/migration_lint.py:31-53 | Another body with the same line breaks, in any comment or literal of any text, leaves the other tokens and the fully stripped text unchanged; a comment's body does not show in the comment-free text. |
| StripTheorems.IdempotentIff | scripts/migration_lint.py:26-57 | Stripping the stripped text changes nothing iff in the text no two dashes, no slash and star, and no literal without line break and other literal have only block comments without line breaks between them. |
| StripTheorems.IdempotentWithoutInlineBlocks | scripts/migration_lint.py:34-38 | It changes nothing whenever every block comment spans a line break. |
| StripTheorems.InlineBlockBreaks | scripts/migration_lint.py:34-38 | A block comment between two dashes makes the second pass drop the rest of the line. |
| StripEquations.StripIffEquations | scripts/migration_lint.py:26-57 | Stripping is the one function on texts that keeps code, drops line comments, leaves the line breaks of block comments, and keeps literals or reduces them to two quotes and their line breaks, ended or not. |
| StripEquations.DoubledIffEscaped | scripts/migration_lint.py:40-47 | The bodies of literals are exactly the texts with every quote written twice. |
| StripEquations.LiteralKept | scripts/migration_lint.py:49-50 | With keep_strings every literal of the text stands unchanged in the output. |
| StripEquations.KeptIffNoComments | scripts/migration_lint.py:27-57 | With keep_strings a text is returned as it is iff it has no comments. |
| Naming.CheckNaming | scripts/migration_lint.py:118-135 | Every entry is an R0 on line 1 of a file. First as many errors as files beyond the distinct keys, in file order: a malformed name at its own path, a repeated key there with the latest earlier path. Then one warning for each version with an up and no down file, by version, at its latest up file. |
| Naming.LatestBefore | scripts/migration_lint.py:127-130 | The latest earlier file with a key, or none when there is none. |
| Naming.ErrorCount | scripts/migration_lint.py:123-130 | There are as many errors as files beyond the distinct (version, kind) pairs. |
| Naming.NoErrorsIff | scripts/migration_lint.py:123-130 | No error iff every name is well formed and no key is used twice. |
| Naming.WarningCount | scripts/migration_lint.py:132-134 | Exactly one warning for each version with an up and no down file. |
| Naming.MissingDownMeaning | scripts/migration_lint.py:132-134 | A version is warned about iff some file is an up migration of it and none a down migration. |
| Naming.OrderIndependent | scripts/migration_lint.py:118-135 | The same files in another order give as many errors and warnings for the same versions. |
| AllowList.ParseTarget | scripts/migration_lint.py:185-186 | The path ends at the first colon; the number after it is recorded iff digits follow to the end; the rule is kept. |
| AllowList.LoadAllow | scripts/migration_lint.py:173-187 | One unused entry for each accepted line and one error for each malformed one, with their line numbers, in order. |
| AllowList.BadLineNumbers | scripts/migration_lint.py:182-184 | A line number is reported iff that line is malformed. |
| AllowList.BadLinesAscend | scripts/migration_lint.py:182-184 | Malformed lines are reported in order, each one time. |
| AllowList.EntriesOfMeaning | scripts/migration_lint.py:185-186 | An entry is recorded with a number iff the line of that number is accepted with it; the numbers ascend. |
| AllowFormat.AcceptedIff | scripts/migration_lint.py:177-186 | A line gives an entry iff it has two words apart, the mark and a justification that is not blank. |
| AllowFormat.IgnoredIff | scripts/migration_lint.py:178-179 | A line is passed over iff it is blank or its first visible character is the mark. |
| AllowFormat.FormatReadsBack | scripts/migration_lint.py:15 | An entry written in the documented format reads back as itself. |
| AllowFormat.EntryAllows | scripts/migration_lint.py:211-214 | An entry written with a line allows exactly the violations of its rule in its file on that line; without a line, those on every line. |
| AllowFormat.OneLineSettles | scripts/migration_lint.py:206-229 | With that line as the allow file and one violation the exit code is 0 iff the entry names the violation. |
| AllowFormat.DocumentedLine | scripts/migration_lint.py:15 | `R6 a.sql:10  # why` allows the R6 violations of a.sql on line 10 and nothing else. |
| AllowFormat.BlanksAlike | scripts/migration_lint.py:178-181 | Every ASCII blank does in a line what a space does. |
| AllowFormat.LineBreakIgnored | scripts/migration_lint.py:177-181 | A line reads the same with and without its line break. |
| AllowList.MarkMatching | scripts/migration_lint.py:211-214 | A violation marks every entry that matches it, and is hit iff there is one. |
| AllowList.Judge | scripts/migration_lint.py:208-229 | The kept violations, the marks on the entries, both counts and the exit code, for every list of violations and entries. |
| AllowList.ErrorTotalMeaning | scripts/migration_lint.py:217-226 | The error total counts the places of unmatched errors, the malformed lines and the places of entries that match nothing. |
| AllowList.KeptMembers | scripts/migration_lint.py:209-216 | A violation is kept, as often as it was found, iff no entry matches it. |
| AllowList.KeptConcat | scripts/migration_lint.py:209-216 | Keeping goes in order: the report of two lists in a row is the two reports in a row. |
| AllowList.PassesIff | scripts/migration_lint.py:217-229 | The exit code is 0 iff every error is matched, no allow line is malformed and every entry matches some violation, a warning included. |
| AllowList.Run | scripts/migration_lint.py:206-229 | From the lines of the allow file to the exit code: 0 iff no line is malformed, every error is matched by an accepted line, and every accepted line matches some violation. |

## Left out

- Width of integers: Go's `int64` ids and `int` counters are unbounded integers here.
- DagBuilder.LoadEdges: the query's conditions on route status, deletion, material type and the upstream product's own route are taken as already applied to the rows.
- `DagBuilder.resolveInitialSet` and the SQL of the edge query: the starting products and the rows are parameters, database errors are not modelled, and the table does not change during one build.
- `Upstream` and `HasNode` are pure accessors; `ViewMeaning` states what they read.
- Nil slices: `PackChunks`, `Build` and `PlanWaves` return nil where the model returns an empty sequence.
- `FillJobContext`, the job and chunk identifiers assigned by the database, and route heads: plain copies of fields.
- `planAndDispatch`: the state machine starts with the rows stored and wave 0 released; a job with cyclic products never gets there (services/finance-cost-orchestrator/internal/orchestrator/coordinator.go:142-146).
- Success, failed and blocked counts, durations, error texts and metrics of a job; only the number of processed chunks is followed.
- Retries and dead-letter queues of single messages: the state machine lets every sent chunk be started, ended and reported any number of times, which covers them. That a job can end is proved (`JobCanFinish`), not that it must.
- The regular-expression rules of `lint_text`, `check_r7_text` and `all_denied_schemas`, and the match of `MIG_NAME`: they rest on Python's regular-expression engine. `check_naming` takes each file's match result as given.
- The wording of the messages of `check_naming`; a message is a value that holds what the text is made from.
- Finding, reading and printing files, and the self-test tables of the lint script.
- Lexical features of SQL that `strip_sql` does not know: nested block comments, escape strings, quoted identifiers, dollar quotes.
- Unicode in the allow-list: only ASCII blanks and digits are known, while Python's `split`, `strip` and `isdigit` also know others.
- scripts/merge-swagger.py, the generated code, and the constants of pkg/costcalc: easy members only.
