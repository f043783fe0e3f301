# Codetrail, modelled and proved

Codetrail indexes Go repositories and answers questions about them with citations. This
project models the parts of it whose guarantees rest on several functions at once, and
proves those guarantees for every input, run or interleaving.

| file | what it models |
|---|---|
| `CallerWalk.dfy` | the recursive caller query: guarded walks, depths, call sites |
| `Jobs.dfy`, `Workers.dfy` | the lease queue, statement by statement, and any number of crashing, late or stalled workers over it |
| `Budget.dfy`, `Gateway.dfy`, `Ask.dfy` | the hourly token allowance, every interleaving of requests over it, and one request from slot to settlement |
| `Llm.dfy`, `Agent.dfy`, `AgentLaws.dfy` | the bounded answering loop: its ceilings, transcript, tools, and what every run keeps |
| `Cite.dfy`, `CiteOutput.dfy` | the citation gate, over positions of the answer, and what its output is worth as a text |
| `Frame.dfy` | escaping third-party content inside its own delimiter |
| `Fuse.dfy`, `Retrieve.dfy` | reciprocal-rank fusion, one search, and the answer assembled from it |
| `Corpus.dfy` | the corpus table, its LRU clock, eviction and tombstones |
| `Ids.dfy`, `Graph.dfy`, `GraphLaws.dfy` | content-addressed ids, the symbol graph with and without type information, and what it holds of the job it was built from |
| `Reuse.dfy`, `VecLiteral.dfy` | the embedding cache, and the text form vectors cross the database in |
| `Windows.dfy`, `Leaks.dfy`, `Gold.dfy` | line windows, the leakage probe, and the gold spans of the evaluation |
| `Common.dfy`, `Order.dfy`, `Text.dfy` | options, sorting, splitting and joining |

Code that changes things in place is a class or a method with its loop, tied by its
`ensures` to a function or predicate of the old state; what is promised is then proved of
that function, or of the runs built from it. Each SQL statement is one atomic step.

## What the proofs found

- **Resolve can show a marker that names nothing.** Deleting `[9]` from `[1] [[9]8]` closes
  a bracket round `8`, and the answer, which passed the gate on `[1]`, is shown with `[8]`
  in it. `CiteOutput.NewMarkersAreSplices` says exactly when deletion makes a marker, and
  `CiteOutput.OutputIsCleanIff` exactly when the shown text is clean.
- **Only the last model call of a run can pass a token ceiling**, by what it cost beyond its
  estimate or its allowance (`AgentLaws.OnlyTheLastCallCanOverrun`). The estimate rounds
  each part down, so a provider that counts the joined prompt can exceed it by less than one
  token a part (`Llm.EstimateUnderstates`), and a run can pass its ceiling by that
  (`AgentLaws.ARunCanOverrun`).
- **The budget's hour is half-open.** The bound holds for every half-open hour. The closed
  one passes it only by what was settled on its first instant, and can hold twice the limit
  (`Gateway.ClosedHourIsBounded`, `Gateway.ClosedHourHoldsTwice`). Where requests do
  overrun their reservations, the excess is the only excess (`Gateway.HourIsBounded`).
- **A larger corpus always contains a smaller one**, over every trace of puts, touches,
  writes and evictions, whatever the clocks. The clean-up of empty repositories is the one
  statement that can break this, exactly when the larger corpus still has spans that the
  smaller lost and already holds as many rows more as it may (`Corpus.NestedIffAgreeing`,
  `Corpus.SplitDeletionBreaksInclusion`).
- **An indirect self-call is absent from its own caller list** at every depth, because the
  cycle guard cuts it; a direct one is there at depth 1 (`CallerWalk.SelfIsListedIffDirect`).
  A depth below 1 behaves as 1.
- **A file of white space** has lines on its own row and none that can be cited; every other
  file's two line counts agree (`Windows.LineCountsAgree`).
- The comment on `Gold` omits the end line from its order, and a comment in
  `packages/shared/store/read.go` denies `Evict` an id tie-break. The code has both, and the
  model follows the code.

## Model

| member | source | states |
|---|---|---|
| CallerWalk.CallersOf | packages/shared/store/graph_read.go:186-208 | at most limit rows, strictly in order, each a symbol at its breadth-first depth with its least nearer call site; what the limit leaves out comes after everything listed, and nothing is left out while there is room |
| CallerWalk.DeliveredIsUnique | packages/shared/store/graph_read.go:64-127 | only one list meets that, for any edges, symbols, depth and limit |
| CallerWalk.DeliveredByDepth | packages/shared/store/graph_read.go:118-127 | nearest first, and equal depths stand by the caller's path, line and id |
| CallerWalk.CallSitesAreReal | packages/shared/store/graph_read.go:104-117 | every listed site is a resolved call in this repository by the symbol listed, and whoever calls the target there is listed at depth 1 |
| CallerWalk.WalkedIsGuardedWalks | packages/shared/store/graph_read.go:104-127 | the recursive query holds a row exactly for each guarded backward walk within the bound |
| CallerWalk.ShortestIsGuarded | packages/shared/store/graph_read.go:77-103 | a shortest walk is simple, so the cycle guard never cuts one |
| CallerWalk.CallersAreBreadthFirst | packages/shared/store/graph_read.go:64-127 | a symbol is listed iff its breadth-first distance is within the bound (the target only by a direct self-call, at depth 1), once, at that distance, with the least call site into a node one hop nearer, strictly sorted |
| CallerWalk.WalkIsFinite | packages/shared/store/graph_read.go:77-103 | with no bound at all, no row is deeper than there are distinct callers |
| CallerWalk.DeepBoundsAgree | packages/shared/store/graph_read.go:77-103 | all bounds past that number give one answer |
| CallerWalk.SelfIsListedIffDirect | packages/shared/store/graph_read.go:77-103 | for every query the target is in its own list iff it calls itself directly, and then at depth 1, however many longer walks lead back to it |
| CallerWalk.IndirectSelfCallIsAbsent | packages/shared/store/graph_read.go:77-103 | half of a mutually recursive pair does reach itself in two hops, and is in its own list at no depth |
| Jobs.BackoffDoublesToItsCap | packages/shared/jobs/jobs.go:181-200 | the first wait is the base, capped; each of the next sixteen is twice the one before, capped; then it stands |
| Jobs.BackoffGrows | packages/shared/jobs/jobs.go:181-200 | the wait never shrinks, never falls below the first and never passes the cap |
| Jobs.FoldsCase | packages/shared/jobs/jobs.go:92-107 | two remotes fold to one exactly when they differ in nothing but the case of ASCII letters |
| Jobs.Queue.Enqueue | packages/shared/jobs/jobs.go:92-107 | an active job for the folded remote and ref is returned as it is, otherwise one pending job is inserted |
| Jobs.Queue.Lease | packages/shared/jobs/jobs.go:119-145 | the oldest claimable unlocked job is leased, its attempt counted, and nothing else changed |
| Jobs.Queue.Complete | packages/shared/jobs/jobs.go:154-167 | done exactly when leased by this worker, expired or not; otherwise refused with nothing changed |
| Jobs.Queue.Fail | packages/shared/jobs/jobs.go:181-200 | the same authority; pending again with at least the first wait and at most the cap before it, or failed at the attempt limit, with the reason; nothing else moves |
| Jobs.Queue.Sweep | packages/shared/jobs/jobs.go:222-232 | exactly the terminal jobs past the window go, and are counted |
| Workers.InvStep | packages/shared/jobs/jobs.go:92-232 | every step keeps: leased iff leased_by is set, one active job per target, every worker fenced by its attempt, every logged clone distinct and within the cap |
| Workers.RunInv | apps/indexer/cmd/main.go:430-509 | the invariant holds at every state of every run of any number of workers |
| Workers.RowStep | packages/shared/jobs/jobs.go:119-232 | a row is changed only by its next lessee, its present lessee's verdict, or the sweep of an aged terminal row |
| Workers.ClaimableExactly | packages/shared/jobs/jobs.go:119-145 | in every run a row can be leased iff it never was, its lease has run out, or the wait after its last failure has passed |
| Workers.LateVerdictChangesNothing | packages/shared/jobs/jobs.go:154-200 | a verdict from a worker that is no longer leased_by leaves the whole table as it was |
| Workers.AcceptedIsCurrent | packages/shared/jobs/jobs.go:154-200 | an accepted verdict is about the row's latest lease, never an earlier one |
| Workers.LeasesAreSeparated | packages/shared/jobs/jobs.go:119-145 | between two leases of one job lies the first holder's accepted verdict or the first lease's expiry |
| Workers.BackoffIsRespected | packages/shared/jobs/jobs.go:119-200 | no lease falls inside the backoff of the job's last failed attempt, nor inside the first wait after it |
| Workers.TerminalIsFinal | packages/shared/jobs/jobs.go:222-232 | a finished job stays as it is until a sweep past the window, and its id is never issued again |
| Workers.CounterMatchesRow | apps/indexer/cmd/main.go:987-999 | whenever a failure write lands, the outcome counted is the row's new status |
| Workers.ClonesAreBounded | apps/indexer/cmd/main.go:499-509 | over any run, crashes and lost leases included, a job's clone starts at most MAX_ATTEMPTS times |
| Budget.Allowance.GiveBack | apps/gateway/internal/handler/ask.go:187-194 | the total loses exactly the expired head of the settlements |
| Budget.Allowance.Prune | apps/gateway/internal/handler/ask.go:187-194 | the expired head goes, its tokens with it, and nothing else changes |
| Budget.Allowance.Allow | apps/gateway/internal/handler/ask.go:149-158 | granted iff what is settled and reserved leaves room, and then reserved |
| Budget.Allowance.Spend | apps/gateway/internal/handler/ask.go:164-171 | the reservation is released and what was used is settled |
| Budget.Allowance.Remaining | apps/gateway/internal/handler/ask.go:176-184 | the answer is the largest request that would still be granted |
| Gateway.InvStep | apps/gateway/internal/handler/ask.go:64-194 | every step of every interleaving keeps: total is the unpruned spends, reserved the outstanding reservations, and every hour is covered |
| Gateway.HourIsBounded | apps/gateway/internal/handler/ask.go:104-194 | in every run and every half-open hour, settled tokens exceed the limit by no more than those settlements overran their own reservations |
| Gateway.HourNeverExceedsLimit | apps/gateway/internal/handler/ask.go:104-194 | when each request settles at most what it reserved, no hour passes the limit |
| Gateway.GrantsSettleOnce | apps/gateway/internal/handler/ask.go:82-100 | every grant is outstanding or settled once, and an idle gateway has nothing reserved |
| Gateway.ClosedHourIsBounded | apps/gateway/internal/handler/ask.go:187-194 | in every run without overruns a closed hour passes the limit by exactly what was settled on its first instant beyond the room the rest left: only when both its ends hold tokens, and never past twice the limit |
| Gateway.ClosedHourHoldsTwice | apps/gateway/internal/handler/ask.go:187-194 | a run, without overruns, whose closed hour holds exactly twice the limit; a second sooner and the second request is refused |
| Ask.Gate.Ask | apps/gateway/internal/handler/ask.go:64-102 | over the cap nothing changes; otherwise exactly MaxInputTokens + MaxOutputTokens is reserved, or refused for want of room; the settlement is the input and output tokens the run's replies reported, or nothing when it panics; the slot comes back, and the answer is the run's gated one |
| Ask.ReservationIsReturned | apps/gateway/internal/handler/ask.go:87-94 | a question leaves the reserved total as it found it, whatever its run cost and whether or not it panicked |
| Ask.HourlyCeilingHolds | apps/gateway/internal/handler/ask.go:64-102 | end to end: when each request settles the input and output tokens its replies reported, and those keep within their estimates, no interleaving of whole runs settles more than the limit in any hour |
| Llm.EstimateRequest | packages/shared/llm/llm.go:130-145 | the nested loops sum the estimate of every part that is sent |
| Llm.EverythingIsBilled | packages/shared/llm/llm.go:115-145 | the estimate of a request is a quarter of the system prompt, and each message and each tool adds its own strings, once |
| Llm.MessageEstimate | packages/shared/llm/llm.go:130-140 | each call of a message adds its name and arguments, each result its content |
| Llm.EstimateUnderstates | packages/shared/llm/llm.go:115-145 | the sum of rounded parts never exceeds the rounded whole, and falls short by less than one token a part |
| Llm.JoinedPromptCostsMore | packages/shared/llm/fake.go:94-103 | a concrete request whose joined prompt costs more than its estimate |
| Agent.Toolset.Call | packages/shared/agent/tools.go:108-215 | a span is served while the cumulative character budget holds it, the first one always; otherwise it is refused with nothing read |
| Agent.Loop.DispatchOne | packages/shared/agent/agent.go:192-245 | one call: counted, deduplicated by repeat key, or sent to the tools, with its ceilings |
| Agent.Loop.Dispatch | packages/shared/agent/agent.go:192-245 | a step's calls in order, a result for each, until a ceiling fires |
| Agent.Loop.Step | packages/shared/agent/agent.go:141-189 | one turn: ceilings first, one model call charged, then its stop or its calls |
| Agent.Loop.Run | packages/shared/agent/agent.go:111-189 | the loop ends in the state its specification names, within MaxSteps turns, with the gated answer |
| Agent.Loop.Finish | packages/shared/agent/agent.go:300-315 | a final answer is served only if a marker in it resolves; every other stop serves no prose |
| AgentLaws.CallToolLaw | packages/shared/agent/tools.go:183-215 | one dispatched call adds at most one span to what was read, within the budget or as the first |
| AgentLaws.ConversationKeeps | packages/shared/agent/agent.go:141-245 | after a reply's calls the transcript is again the question followed by whole exchanges, or the run has stopped |
| AgentLaws.EveryRunKeepsTheLaw | packages/shared/agent/agent.go:111-292 | at every model call the transcript is one question and assistant/user pairs with results matching calls; steps, tool calls and repeat keys stay within their ceilings; what was read is what dispatched calls opened, within the character budget |
| AgentLaws.OnlyTheLastCallCanOverrun | packages/shared/agent/agent.go:141-189 | the input and output totals pass their ceilings by at most the last call's cost beyond its estimate or allowance |
| AgentLaws.RunsCostTheirCalls | packages/shared/agent/agent.go:285-292 | a run reports having used the sum of what its calls cost, input and output |
| AgentLaws.CallsCostTheirReplies | packages/shared/agent/agent.go:157-170 | and each call cost what its reply reported, a failed one nothing |
| AgentLaws.ARunCanOverrun | packages/shared/agent/agent.go:141-189 | a valid configuration and a run of it that passes MaxInputTokens, with a provider that only counts the joined prompt |
| AgentLaws.WellBehavedRunsFitTheirReservation | packages/shared/agent/agent.go:285-292 | with replies within estimate and MaxTokens, a run costs at most MaxInputTokens + MaxOutputTokens, which is what is reserved |
| AgentLaws.ServedAnswersCite | packages/shared/agent/agent.go:300-315 | a served answer has a non-empty citation list that indexes what the loop read |
| AgentLaws.EveryStopIsExplained | packages/shared/agent/agent.go:141-245 | every run is cut short by the first ceiling that is checked before a call, or concluded by its last reply: a failure by its kind, a fragment, an answer, or a tool call that ends it; and all replies before that were whole and asked for tools |
| AgentLaws.OnlyWholeRepliesAreServed | packages/shared/agent/agent.go:172-181 | an answer is served, or found uncited, iff the last reply is whole and asks for no tool, and it is that reply's text through the gate |
| AgentLaws.TruncatedIsTokenBudget | packages/shared/agent/agent.go:172-177 | a truncated reply ends the run as token_budget and serves nothing |
| AgentLaws.TheModelIsShownWhatHappened | packages/shared/agent/agent.go:182-245 | at every call the model is shown the question, its own replies as they were, and for each of their calls what the corpus answered or one of the three complaints |
| Cite.Rewrite | packages/shared/agent/cite.go:61-92 | the loop cuts exactly the matches judged gone, counts them, and lists first appearances |
| Cite.StandsIsStandalone | packages/shared/agent/cite.go:21-92 | the loop's test of the byte before and of the match before is the definition of a marker that stands alone |
| Cite.Resolve | packages/shared/agent/cite.go:38-92 | the output is the input without exactly the dropped markers' ranges; the order is duplicate-free, in order of first appearance and within range; every standalone marker is resolved or counted |
| Cite.CodeIsNotCited | packages/shared/agent/cite.go:23-36 | brackets after a name, a number, a call or a block are left alone |
| Cite.ProseIsCited | packages/shared/agent/cite.go:23-71 | a marker at the start, after space or punctuation, or run into by another that stands alone, cites |
| CiteOutput.NewMarkersAreSplices | packages/shared/agent/cite.go:38-92 | every marker of the output is one of the input with the same number, iff no bracket closes round digits that a deletion brought to it |
| CiteOutput.OutputIsCleanIff | packages/shared/agent/cite.go:38-92 | every standalone marker of the output resolves iff those that deletion made, and those that follow them without a gap, are in range; and exactly then resolving again changes nothing |
| CiteOutput.UnsplicedOutputIsClean | packages/shared/agent/cite.go:38-92 | in particular whenever there is no such splice |
| CiteOutput.SplicedOutputShowsABrokenMarker | packages/shared/agent/cite.go:38-92 | a concrete answer that cites and still leaves a marker naming nothing |
| Frame.EscapedIsDelimiterFree | packages/shared/agent/frame.go:31-36 | for any content the escaped form holds neither delimiter: neither replacement recreates the other's |
| Frame.HarmlessIsUntouched | packages/shared/agent/frame.go:31-36 | content without a delimiter is passed through unchanged |
| Frame.EscapingAddsOnlySlashes | packages/shared/agent/frame.go:31-36 | the escaped form differs from the content in backslashes alone |
| Frame.FrameCarriesTheContent | packages/shared/agent/frame.go:26-29 | a frame holds the tool's name, the notice, and the escaped content whole, up to its closing delimiter |
| Frame.FrameHoldsOneOfEach | packages/shared/agent/frame.go:26-36 | for any content, a frame has one opening delimiter, at its start, and one closing one, at its end, iff the tool's name holds neither |
| Fuse.Fuse | packages/shared/rag/fuse.go:87-142 | the accumulated entries, each once, strictly sorted, for any order the map is walked in |
| Fuse.RankingIsUnique | packages/shared/rag/fuse.go:104-133 | there is only one such list |
| Fuse.ScoresAreWeightedSums | packages/shared/rag/fuse.go:67-110 | the union of the arms, each span once, with its rank in each arm, the vector arm's score and place, and the sum of each arm's weight over k plus the rank there |
| Fuse.TiesBreakByPlace | packages/shared/rag/fuse.go:112-133 | scores fall, and equal ones stand by path, line and id |
| Fuse.AgreementBeatsOneArm | packages/shared/rag/fuse.go:67-110 | at k = 60 two places 28 come before a first and a hundredth |
| Fuse.DominanceIsRespected | packages/shared/rag/fuse.go:67-154 | no worse in every arm that weighs anything and better in one: ranked ahead |
| Fuse.SilentLexicalKeepsVectorOrder | packages/shared/rag/fuse.go:40-110 | an empty or weightless lexical arm leaves the vector order unchanged, ahead of everything that arm did not return |
| Retrieve.SpansOf | packages/shared/rag/retrieve.go:208-222 | exactly the wanted ids that some row carries, each with the last such row's span |
| Retrieve.FuseAndTrim | packages/shared/rag/retrieve.go:132-140 | the head of the full-depth ranking, with the span of every hit and of no other |
| Retrieve.Search | packages/shared/rag/retrieve.go:103-171 | rejected, failed or found exactly as the configuration and the arms decide, with the top score and the arms that ran |
| Retrieve.HitsAreTheBest | packages/shared/rag/retrieve.go:132-140 | at most limit hits, each the weighted fusion of its rows, in falling score; a row of either arm is missing only when the limit is reached, and scores no more than any hit |
| Retrieve.Assemble | packages/shared/rag/answer.go:78-123 | whole blocks of the longest leading run of present hits that fits, marked 1 to n, the rest counted |
| Retrieve.AnswerIsItsBlocks | packages/shared/rag/answer.go:78-112 | the text is exactly the blocks of the cited spans, in order, numbered from 1, a blank line between |
| Retrieve.BlockIsMarkedAndWhole | packages/shared/rag/answer.go:114-123 | a block opens with its marker, names the path, the lines and the symbol, and ends in the span's whole text |
| Retrieve.AnswersPassTheGate | packages/shared/rag/answer.go:78-123 | each block's marker stands alone in the answer, where the citation gate reads it as the block's number |
| Retrieve.StopsOnlyWhenFull | packages/shared/rag/answer.go:90-97 | a present hit is left out only at MaxSpans, or when its block would pass MaxChars |
| Retrieve.AnswerIsBounded | packages/shared/rag/answer.go:78-112 | at most MaxSpans citations and MaxChars of text, except that the top span is never cut; citations and dropped add up to the hits |
| Retrieve.AnswersFromTheTop | packages/shared/rag/answer.go:78-112 | what a search found is cited from its first hit on, in order, and some hit is always cited |
| Corpus.SelectBeyond | packages/shared/store/evict.go:57-61 | ORDER BY … OFFSET keep is the rows that keep others beat, whatever order the scan meets them in |
| Corpus.Store.PutRepo | packages/shared/store/repos.go:55-83 | inserts, or updates all but the remote and commit, and winds the clock |
| Corpus.Store.TouchRepo | packages/shared/store/repos.go:171-174 | winds the clock of a row that is there, and is nothing otherwise |
| Corpus.Store.DeleteEmptyRepo | packages/shared/store/repos.go:153-162 | deletes the row iff it has no span |
| Corpus.Store.Evict | packages/shared/store/evict.go:54-89 | the rows beyond keep go and are tombstoned, the oldest tombstones are trimmed, the count is the rows gone; a negative keep changes nothing |
| Corpus.Store.RepoGone | packages/shared/store/evict.go:100-108 | tombstoned and not back |
| Corpus.EvictionKeepsTheTop | packages/shared/store/evict.go:54-69 | min(keep, size) rows stay, and each of them is ahead of every row that goes |
| Corpus.FreshRowSurvives | packages/shared/store/repos.go:50-55 | a row just written survives the eviction that follows, unless something was used since |
| Corpus.EvictedReadsGone | packages/shared/store/evict.go:91-108 | an evicted repository reads as gone at once when the trim has room for this eviction |
| Corpus.TombstonesRecordTheRows | packages/shared/store/evict.go:54-69 | a tombstone has its row's remote, ref, commit and index time, and when it went |
| Corpus.CorpusIsInclusive | packages/shared/store/evict.go:54-89 | over every trace without a split deletion, the corpus under keep is part of the corpus under any larger keep, on the same clocks, and within the difference |
| Corpus.TracesWithoutDeletionAreInclusive | packages/shared/store/repos.go:164-174 | in particular over every trace of puts, touches, span writes and evictions |
| Corpus.SplitCanBreak | packages/shared/store/repos.go:133-162 | from any two nested corpora that a deletion splits, some puts, reads and one eviction leave the smaller a row the larger has dropped |
| Corpus.NestedIffAgreeing | packages/shared/store/repos.go:133-162 | the corpora are nested at every point of a trace, and stay so under anything but a deletion, iff no deletion along it splits them or the smaller keep is zero |
| Corpus.SplitDeletionBreaksInclusion | packages/shared/store/repos.go:133-162 | a trace from the empty corpus, under keeps of one and two, that splits and ends with a row in the smaller corpus alone |
| Ids.SymbolIdsIdentify | packages/shared/store/graph.go:13-28 | two symbol ids are equal iff repository, path, line, kind and name are |
| Ids.EdgeIdsIdentify | packages/shared/store/graph.go:30-37 | two edge ids are equal iff repository, tail, path, offset and name are |
| Ids.HashIsInjective | packages/shared/store/repos.go:29-39 | the NUL after each part separates any two lists of NUL-free parts, and ids are NUL-free parts themselves |
| Graph.MostSpecific | apps/indexer/cmd/graph.go:273-288 | a container holding the line that is ahead, by start, end and id, of every other that does; none iff none does |
| Graph.FirstOverlapping | apps/indexer/cmd/graph.go:247-262 | a container meeting the range that is ahead, by start, end and id, of every other that does; none iff none does |
| Graph.SpanFor | apps/indexer/cmd/graph.go:230-235 | a link is found iff some span holds the first line or meets the range |
| Graph.SpanLinkIsBest | apps/indexer/cmd/graph.go:200-235 | the link is the id of the innermost span holding the first line; failing any, of the foremost one meeting the range; failing any, no span's |
| Graph.SpanLinkIgnoresRowOrder | apps/indexer/cmd/graph.go:237-288 | the link is the same for every order of the span rows |
| Graph.TargetIgnoresDefOrder | apps/indexer/cmd/graph.go:264-288 | a call's target is the same for every order of the definitions |
| Graph.BuildSymbols | apps/indexer/cmd/graph.go:94-134 | a symbol per definition whose file has a row, and the two indexes that calls are looked up in, the first definition on a line owning it |
| Graph.BuildEdge | apps/indexer/cmd/graph.go:141-169 | the edge of an owned call, and none for a call nothing owns |
| Graph.BuildGraph | apps/indexer/cmd/graph.go:91-173 | the symbols, edges and counters of the whole job |
| GraphLaws.SymbolsAreTheDefinitions | apps/indexer/cmd/graph.go:94-134 | the symbols are the definitions whose files have rows, each once, in order, field for field |
| GraphLaws.EdgesAreTheOwnedCalls | apps/indexer/cmd/graph.go:141-170 | the edges are the calls inside such a definition, each once, in order, with the call's name, path and line, from the first symbol on the declaration's line, to the innermost symbol type information reaches |
| GraphLaws.SymbolsAreCited | apps/indexer/cmd/graph.go:94-130 | each symbol's span is the tightest of its file's that holds its first line, else the earliest that meets its lines, else none |
| GraphLaws.CountersCount | apps/indexer/cmd/graph.go:134-169 | each counter is the number of edges with its label; what could not be named is summed over the files |
| Graph.ResolvedExactly | apps/indexer/cmd/graph.go:151-163 | a call is resolved iff type information sends it to a line some definition holds, and then to the innermost such definition |
| Graph.ResolutionOnlyRelabels | apps/indexer/cmd/graph.go:85-90 | under any two resolution maps the symbols are equal and the edges are the same call sites in the same order; resolved and syntactic add up to the edges |
| Graph.CheckGraph | packages/shared/store/graph.go:64-81 | accepted iff every row is this repository's and a target is set exactly on resolved edges; a refusal names an offending row |
| Graph.BuiltGraphIsAccepted | packages/shared/store/graph.go:55-81 | a built graph is accepted, both ends of every edge are its symbols, and every symbol has its file row |
| Graph.BuiltEdgesAreIdentified | packages/shared/store/graph.go:30-37 | every edge of a built graph is some call's under its owner, and two share an id iff they share tail, path, offset and name, and then their target too |
| Graph.NoCallSiteIsLost | packages/shared/store/graph.go:30-37 | calls at different offsets never merge: no two edges of a built graph have one id, however many calls share a line |
| Reuse.EmbeddingsByDigest | packages/shared/store/reuse.go:22-84 | the first row's vector for every digest that has one, or failure when any of them is corrupt |
| Reuse.StoredIsTheFirstRow | packages/shared/store/reuse.go:29-84 | the vector of a digest is that of the row with the smallest id among this embedder's rows for it, and there is one iff there is such a row |
| Reuse.WhatIsStoredIsLent | apps/indexer/cmd/reindex.go:120-155 | with a read that succeeds, a span is lent that vector iff there is one |
| Reuse.FillsCountsTheLent | apps/indexer/cmd/reindex.go:140-155 | the count is of the spans lent to, a shared digest counted for each |
| Reuse.Reuse | apps/indexer/cmd/reindex.go:120-155 | each span is lent the vector read for its digest iff the width is right; the count is the spans lent to |
| Reuse.EmbedBatch | apps/indexer/cmd/main.go:884-905 | a batch is written in place, or refused whole when the reply is not one vector a text |
| Reuse.EmbedAll | apps/indexer/cmd/main.go:882-908 | for any batch size exactly the spans of todo are embedded; a failure means some request of at most that many texts was not answered |
| Reuse.IndexTail | apps/indexer/cmd/main.go:853-868 | each span ends lent to or embedded, and reused plus embedded is the span count |
| Reuse.PutReplacesTheRows | packages/shared/store/spans.go:70-121 | a repository's rows become its spans, column for column, and no other's change; a wrong width changes nothing |
| Reuse.ReuseIsTransparent | apps/indexer/cmd/reindex.go:82-155 | with reuse on, off or failed, every span ends with the vector of its own text |
| Reuse.TruthfulTableLendsTruly | packages/shared/store/reuse.go:29-84 | a table whose right-width rows are right lends only right vectors, whatever else it holds |
| Reuse.JobIsTransparent | apps/indexer/cmd/main.go:853-868 | one job leaves the table it would have left with no cache, and leaves it truthful |
| Reuse.HistoryIsTransparent | apps/indexer/cmd/reindex.go:82-119 | over any history of jobs, embedders, cache failures and rows dropped in between, the corpus is row for row the uncached one |
| VecLiteral.Render | packages/shared/store/spans.go:141-153 | the printed numbers, comma-separated and bracketed |
| VecLiteral.Parse | packages/shared/store/reuse.go:89-108 | what the literal reads as, or an error for a bad bracket or number |
| VecLiteral.ParsedExactly | packages/shared/store/reuse.go:89-108 | a literal reads iff it is bracketed once trimmed and every part is a number, and then as those numbers in order |
| VecLiteral.LiteralRoundTrips | packages/shared/store/reuse.go:86-108 | a vector, the empty one included, is read back as it was written, given that each of its own numbers is |
| VecLiteral.IntegersAreLossless | packages/shared/store/spans.go:141-153 | decimal integers are such numbers, in any vector of them |
| VecLiteral.LiteralsAreDistinct | packages/shared/store/spans.go:131-153 | different vectors never share a literal |
| Windows.Windows | packages/shared/chunk/window.go:26-51 | full windows a stride apart from the first line on, the last one cut; it ends on the last line unless the stride steps over it; nothing at all for a stride that does not advance |
| Windows.TilingIsTight | packages/shared/chunk/window.go:20-51 | every line is covered and no other; neighbours share exactly the overlap; no window lies inside another |
| Windows.WindowTextIsItsLines | packages/shared/chunk/window.go:9-12 | a window's text splits back to exactly the lines its range cites |
| Windows.LineCountsAgree | packages/shared/walk/walk.go:176-185 | the lines tiled are the lines recorded iff the file is empty or not blank, and they join back to the file |
| Windows.Retrievable | packages/shared/chunk/chunk.go:103-111 | exactly the chunks with a token are kept, the others counted |
| Windows.KeepKeepsOrder | packages/shared/chunk/chunk.go:103-111 | the chunks kept are those with a token, in the order they came |
| Windows.Chunks | packages/shared/chunk/chunk.go:49-92 | an error iff the options are invalid; nothing for a blank file; otherwise the tiling of its lines, or the AST strategy's chunks, filtered |
| Windows.EveryWordyLineIsCited | packages/shared/chunk/chunk.go:94-111 | every line with a letter or digit is still in a kept window |
| Leaks.Normalise | apps/evalrunner/internal/golden/golden.go:160-176 | the maximal runs of letters and digits, lowered and single-spaced |
| Leaks.WordsAreRuns | apps/evalrunner/internal/golden/golden.go:160-176 | the words are the maximal runs of letters and digits, all of them, in order, lowered |
| Leaks.LeaksIn | apps/evalrunner/internal/golden/golden.go:178-181 | the probe answers whether the normal form of the text contains the question's, padded |
| Leaks.NormalFormIsTight | apps/evalrunner/internal/golden/golden.go:152-176 | no double space, and none at either end |
| Leaks.LeaksExactlyAsPhrase | apps/evalrunner/internal/golden/golden.go:178-203 | a question leaks iff it has a word and its words are a contiguous run of the text's words |
| Gold.Gold | apps/evalrunner/internal/metric/gold.go:32-72 | every overlap in order, and the largest of them, the earliest on a tie, or nothing when no overlap counts |
| Gold.GoldIgnoresRowOrder | apps/evalrunner/internal/metric/gold.go:29-59 | both answers are the same for every order of the span rows |
| Gold.LargestIsUnique | apps/evalrunner/internal/metric/gold.go:61-72 | there is one strict answer |
| Gold.OverlapCountsLines | apps/evalrunner/internal/metric/gold.go:61-72 | the size of an overlap is the number of lines in both |
| Gold.RankedByPlace | apps/evalrunner/internal/metric/gold.go:45-59 | the lenient spans stand by first line, last line and id |
| Gold.GoldIsOverlap | apps/evalrunner/internal/metric/gold.go:13-48 | a span is lenient gold iff it shares a line with the declaration, and the strict answer is missing only when the lenient ones are |

## Left out

- Postgres itself: isolation levels, connection loss inside a statement, planner behaviour. A
  statement is one step on a table value, and `SKIP LOCKED` is an arbitrary set of locked rows.
- Text order is byte order, as under the C collation; characters stand for bytes, so lengths
  in `Retrieve`, `Llm` and `Agent` count characters where Go counts bytes.
- Clocks, deadlines and durations are numbers or oracles chosen by the environment; job ids
  are fresh by assumption.
- Ids.Hash: the hexadecimal of the whole hashed text stands for that of its SHA-256, so
  collisions are not part of this model; digests of span texts are likewise taken as telling
  texts apart. Where an id only breaks a tie, the proofs hold for any order of ids.
- `repeatKey`'s JSON normalisation: a call's repeat key is an arbitrary function of the call.
- Agent.Toolset.Call: the store behind the tools answers arbitrarily; what `search`,
  `definition_of` and `callers_of` write into their results is opaque text, and refusals too.
- Budget.Settlement and `Agent.State` carry history the code does not store (`want`, `sent`,
  `trips`); no decision reads it.
- Fusion scores are exact reals: rounding, NaN and infinities are not modelled.
- Fuse.Fuse: asks for K of at least 0, which the search validates before it fuses; a negative K
  divides by zero at some rank, and that quotient is not modelled.
- Fuse.ScoresAreWeightedSums: asks that each arm's span ids be distinct, as a primary key
  makes them; the union and the order do not ask it.
- CallerWalk.CallersOf: asks that symbol ids be distinct, as the primary key makes them. The
  transaction, its timeout and a failed scan are not part of this model.
- Corpus.Store.PutRepo: the file rows written in the same transaction are not modelled.
- Retrieve.Assemble: the citation record beside each marker (permalink, staleness) is not
  part of this model, and an integer line number is taken as a natural one.
- Graph: go/parser and the type-checker are inputs (definitions, calls, a resolution map).
  The nested map from path to line to owner is one map keyed by both.
- Graph.CheckGraph: the writes that follow the checks (delete, insert, upsert) are not modelled.
- Reuse.JobIsTransparent: `PutSpans` is a function on the table; its insert batches, the width the
  column has and the repository check on each span are not modelled, nor are the columns that do
  not bear on a vector.
- Reuse.PutReplacesTheRows: asks that the spans of one write have distinct ids.
- Retrieve.HitsAreTheBest: asks that each arm's rows be of distinct spans, as the primary key makes them.
- Windows.Chunks: the AST chunker, `StripDocs` and declaration sub-windowing are one arbitrary
  function; where they tile, they call the same tiling on a sub-range, which is what is proved.
- VecLiteral: strconv is any printer and reader that read back the numbers of the vector at
  hand, which NaN never does.
- Gold.GoldIsOverlap: is about declarations and spans whose lines run forwards; `Gold.Gold` states
  what happens otherwise.
- Leaks.LeaksExactlyAsPhrase: asks that no letter's lower case be a space.
- Leaks and Windows take Unicode's letter, digit, space and lower-case tables as functions.
- HTTP handlers, clients, configuration, metrics, logging, git and the filesystem walk: I/O
  or one-branch logic.
