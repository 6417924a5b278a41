# WeftOS: scheduler, calendar, catalog, protocol and text logic in Dafny

Models of the self-contained algorithms in the WeftOS scripts, build scripts and web playground, with proofs
of what they promise. `dafny verify dfyconfig.toml` checks the whole project.

| files | what they model |
|---|---|
| `TicketGraph`, `Waves`, `CriticalPaths`, `Descendants` | the ticket planner: mirrored edge maps, the capped wave loop, the memoised critical-path search, the `path` listing |
| `Calendar`, `Timestamps` | civil-from-days in the build scripts' integer widths, and the RFC 3339 stamp printed from it |
| `CatalogMerge`, `Catalog`, `CatalogTheorems`, `CatalogProvenance`, `CatalogScript` | consolidation of the part catalog under an alias map; the last file is the script with entries as objects |
| `ParentProtocol`, `ParentRequests`, `ParentService` | the parent side of the project lifecycle protocol: a step function over whole runs, what each request is answered, and the object that performs it |
| `ShellCommand`, `Redaction` | the copyable `curl` command against a reader of POSIX shell words; token redaction |
| `KeyedLists`, `Measured`, `Capabilities` | keyed capability merging, stable sorting, classification and provenance upgrades |
| `Framing` | length-prefixed frames read from a stream in arbitrary pieces |
| `Basics` | optional values, lists without repetition, digits, string order |

Readings of the source that the models rest on:

- Signature checks and hashing are function values of a configuration, so every theorem holds for all of them. The
  history theorem does not assume an injective hash: it yields equal histories or the place at which the two runs hold
  different anchors with equal hashes.
- Random tokens are inputs of a step; a run is `FreshRun` when no token repeats.
- An assertion or exception in Python is a `Raised` reply, `None` or `Missing`; effects before it stay.
- The initialiser of `era` in the build scripts divides the whole conditional. Signed division truncates and is written
  out; unsigned values are a type in which a negative difference is not accepted.
- The catalog script promises idempotence and valid results without a condition. Both hold exactly for flat module and
  chip aliases (no alias target is itself aliased away): `ValidityNeedsFlatness`, `IdempotenceNeedsFlatness`. Its promise
  that the united fields lose nothing holds exactly when each alias whose target is aliased away sorts before that target,
  flat maps included: `ProvenanceNeedsOrder`. Module references of a folded project are never united:
  `ProjectReferencesAreNotUnited`.
- A ticket reported as stuck need not be behind a cycle: the loop stops after 81 waves. `StuckMeansCyclicExactly` gives the
  exact condition and `LineIsCutShort` an acyclic graph that is cut short.
- The receive loop reports a close inside a frame header as a clean close; `Framing.Receive` states it that way.

## Model

| member | source | states |
|---|---|---|
| TicketGraph.EdgeMaps.AddEdge | scripts/plane-dag-build.py:240-244 | an admitted edge enters both maps and nothing else changes; self-edges and unknown tickets change nothing; the maps stay exact converses |
| TicketGraph.BuildEdges | scripts/plane-dag-build.py:234-295 | after any sequence of edge requests the two maps are converses and hold exactly the requested edges between two different known tickets |
| TicketGraph.LongChainIsCyclic | scripts/plane-dag-build.py:304-307 | a chain that repeats a ticket puts its end downstream of a cycle |
| TicketGraph.CyclicHasLongChains | scripts/plane-dag-build.py:304-307 | a ticket downstream of a cycle ends chains longer than any bound |
| Waves.ComputeWaves | scripts/plane-dag-build.py:298-332 | every wave is exactly the tickets ready after the earlier waves, none is empty, the loop ends for lack of ready tickets or at 81 waves, the rest is stuck |
| Waves.Strike | scripts/plane-dag-build.py:326-328 | striking a placed ticket through `blocks` removes it from every open ticket's remaining blockers |
| Waves.Discharge | scripts/plane-dag-build.py:324-328 | after a wave the remaining blockers are the open blockers not yet placed |
| Waves.PlanPartitions | scripts/plane-dag-build.py:305-331 | waves are disjoint, waves and stuck partition the open tickets, every open blocker of a placed ticket is in a strictly earlier wave |
| Waves.WaveIndexIsLongestChain | scripts/plane-dag-build.py:304-330 | on every graph an open ticket is in wave i if and only if its longest chain of open blockers has i edges |
| Waves.StuckIffLongChain | scripts/plane-dag-build.py:329-331 | a ticket is stuck if and only if a chain of 82 tickets ends at it |
| Waves.CyclicIsStuck | scripts/plane-dag-build.py:304-331 | everything on or downstream of an open cycle is stuck, whatever stopped the loop |
| Waves.StuckIsCyclic | scripts/plane-dag-build.py:306-307 | when the loop stops for lack of ready tickets, stuck is exactly what lies on or downstream of an open cycle |
| Waves.StuckMeansCyclicExactly | scripts/plane-dag-build.py:329-331 | stuck means behind a cycle if and only if every chain into a cycle-free ticket has at most 81 tickets |
| Waves.LineIsCutShort | scripts/plane-dag-build.py:329-331 | 82 tickets in a line form an acyclic graph whose last ticket is reported stuck |
| Waves.WavesAreEarliest | scripts/plane-dag-build.py:298-332 | no schedule that respects blockers runs a ticket before its wave, and a stuck ticket fits no slot below 81 |
| CriticalPaths.Search.Depth | scripts/plane-dag-build.py:554-572 | terminates on every graph; for a ticket on the stack the empty path of length 0, for any other a memoised repetition-free chain of open tickets from it whose length is the returned number, the longest one when the ticket reaches no cycle, and of more than one ticket when it is unblocked and blocks something; memo entries never change and the stack is restored; memo and result are the function of the visiting order that `VisitingOrderShows` evaluates |
| CriticalPaths.Search.Explore | scripts/plane-dag-build.py:565-569 | a repetition-free chain from the ticket that is longer than the memoised path of every child off the stack; a child on the stack shows that the ticket reaches a cycle |
| CriticalPaths.Search.CriticalPaths | scripts/plane-dag-build.py:574-579 | for each unblocked ticket that blocks an open one, on a cycle-bound path or not, exactly one path is listed, with more than one ticket; nothing else is listed |
| CriticalPaths.LengthIsMaximalExactly | scripts/plane-dag-build.py:558-572 | measured against all chains, which may repeat tickets, the returned length is the maximum if and only if the ticket reaches no cycle |
| CriticalPaths.ListingsAgree | scripts/plane-dag-build.py:574-579 | whatever order tickets and children are visited in, a root that reaches no cycle is listed with the same length |
| CriticalPaths.FirstLongestWins | scripts/plane-dag-build.py:565-569 | of several children with a longest memoised path the search follows the one visited first |
| CriticalPaths.VisitingOrderShows | scripts/plane-dag-build.py:552-579 | on a board of two roots into a two-ticket cycle the root visited first is listed with three tickets and the other with two, so set order shows in the listing beyond that |
| CriticalPaths.NothingStuckExactly | scripts/plane-dag-build.py:329-331 | nothing is stuck if and only if no chain has more than 81 tickets, and the graph is then acyclic |
| CriticalPaths.WavesEqualCriticalLength | scripts/plane-dag-build.py:574-580 | when nothing is stuck, no listed path is longer than the number of waves, with two or more waves some listed path has exactly that length, and with fewer nothing is listed |
| CriticalPaths.BuildPlan | scripts/plane-dag-build.py:335-365 | from edge requests to waves, stuck tickets and paths: the edges are the admitted requests, the plan holds, the listing has exactly one path per unblocked ticket that blocks something, and with nothing stuck its greatest length is the number of waves |
| Descendants.PathFrom | scripts/plane-dag-build.py:743-758 | terminates on any graph; prints exactly the tickets reachable by one or more edges, each once, nearest first |
| Descendants.Expand | scripts/plane-dag-build.py:753-758 | queue and listing gain exactly the children not seen before, each where it first occurs, and all children count as seen |
| Descendants.ExpandLevels | scripts/plane-dag-build.py:751-758 | expanding a ticket keeps the breadth-first levels: each is the length of a walk, they never fall and span at most one step from the head of the queue |
| Calendar.DayNumberCounts | crates/clawft-weave/build.rs:154-156 | the reference day count gives the epoch 0 and each next calendar date the next number |
| Calendar.Era | crates/clawft-weave/build.rs:157-159 | the truncating division of the adjusted numerator is division rounded down, so the day of era is in 0..146096 |
| Calendar.YearOfEraCorrect | crates/clawft-weave/build.rs:160-162 | the closed formula finds a year of the era that contains the day, including the era's last leap day |
| Calendar.YearOfEraExactly | crates/clawft-weave/build.rs:160-162 | the formula gives a year if and only if the day falls in that year |
| Calendar.MonthDayTable | crates/clawft-weave/build.rs:163-165 | the month and day formulas agree with the month starts of a March-based year |
| Calendar.CivilIsExact | crates/clawft-weave/build.rs:154-168 | every day number converts to a valid proleptic Gregorian date whose day count is that number |
| Calendar.CivilInverts | crates/clawft-weave/build.rs:154-168 | every valid date is the conversion of its own day count, the inverse of `CivilIsExact` |
| Calendar.CivilSteps | crates/clawft-cli/build.rs:137-151 | the next day number converts to the next calendar date and day 0 to 1970-01-01 |
| Calendar.YmdExactly | crates/clawft-weave/build.rs:166-167 | the returned triple is the date with that day count if and only if the day number lies in the range of 32-bit years |
| Calendar.AsI32Exactly | crates/clawft-weave/build.rs:167 | narrowing keeps the year modulo 2^32, and the year itself exactly in the 32-bit range |
| Timestamps.NumberOfPad | crates/clawft-weave/build.rs:151 | a zero-padded decimal reads back as its number and has the requested width when the number fits |
| Timestamps.PadYearReads | crates/clawft-weave/build.rs:151 | a year of either sign reads back, and is printed in four characters, sign included, from -999 to 9999 |
| Timestamps.StampDate | crates/clawft-weave/build.rs:144-152 | up to year 2147483647 the stamp shows the valid date whose day count is that of the seconds |
| Timestamps.StampRoundTrip | crates/clawft-weave/build.rs:144-152 | parsing the stamp as an RFC 3339 date-time recovers the seconds if and only if they lie before year 10000 |
| Timestamps.StampOrder | crates/clawft-cli/build.rs:127-135 | up to the end of year 9999 string order is chronological order |
| Timestamps.OrderBreaks | crates/clawft-weave/build.rs:151 | the first second of year 10000 does not sort after the last of year 9999 |
| Timestamps.StampOrderExactly | crates/clawft-weave/build.rs:144-152 | string order is chronological on all stamps up to a bound if and only if the bound lies before year 10000 |
| CatalogMerge.UnionIsOrdered | scripts/consolidate-catalog.py:63-79 | a union is the canonical list unchanged and then the first element of each new key in order; no key is lost |
| CatalogMerge.UnionAppendsFirsts | scripts/consolidate-catalog.py:63-79 | a union repeats no key of what stands before, takes the first element of each new key, and keeps the order in which the new keys first occur |
| CatalogMerge.MergesArePriority | scripts/consolidate-catalog.py:82-96 | a sequence of pairwise merges is one priority merge: first non-empty scalar, first spec value per key, ordered unions |
| CatalogMerge.EmptyGivesWay | scripts/consolidate-catalog.py:59-60 | null, the empty text, the empty list and the empty object, and nothing else, give way to another value |
| CatalogMerge.PriorityIsUnique | scripts/consolidate-catalog.py:82-96 | the priority merge determines the whole entry |
| CatalogMerge.NoItemLost | scripts/consolidate-catalog.py:94-96 | list fields keep the canonical items as a prefix and lose no item of a duplicate |
| CatalogMerge.NoOfferLost | scripts/consolidate-catalog.py:92-93 | offers keep the canonical ones as a prefix, and every offer of a duplicate has one with its vendor and address |
| CatalogMerge.OffersAreDistinct | scripts/consolidate-catalog.py:71-79 | no offer that a merge adds has the vendor and address of one before it |
| CatalogMerge.NoSpecLost | scripts/consolidate-catalog.py:88-91 | the canonical spec values win and no spec key of a duplicate is lost |
| CatalogMerge.MergeAssociative | scripts/consolidate-catalog.py:82-96 | folding a merged entry equals folding its parts one after the other, on every field |
| CatalogMerge.MergeGroup | scripts/consolidate-catalog.py:82-96 | folding in an entry that has absorbed others equals folding in that entry and then the others |
| CatalogProvenance.MergeCarries | scripts/consolidate-catalog.py:82-96 | after a merge the canonical entry holds every list item, offer key, spec key and filled field of both |
| Catalog.TargetsThere | scripts/consolidate-catalog.py:115-123 | when folding succeeds, every aliased id of the collection has its target in it |
| Catalog.TargetSurvives | scripts/consolidate-catalog.py:115-126 | with a flat alias map, the target of every id is among the surviving entries |
| Catalog.RemapMember | scripts/consolidate-catalog.py:99-105 | a rewritten reference list holds exactly the targets of the old references |
| Catalog.RemapIsRewriting | scripts/consolidate-catalog.py:99-105 | a rewritten reference list holds the targets of the references, each once, in the order in which they are first named |
| Catalog.DropConcat | scripts/consolidate-catalog.py:126 | dropping is a filter that goes entry by entry, in order |
| CatalogTheorems.SucceedsExactly | scripts/consolidate-catalog.py:117-122 | the run succeeds if and only if every aliased id present has its target present |
| CatalogTheorems.FailureIsFirst | scripts/consolidate-catalog.py:111-122 | a failing run names the absent target of the first present id in sorted order that has one, in the first of projects, modules and chips where there is one |
| CatalogTheorems.ReportIsExact | scripts/consolidate-catalog.py:115-124 | a successful run reports, per collection and in sorted order, exactly the present ids aliased to another id, each with its target |
| CatalogTheorems.StaysValid | scripts/consolidate-catalog.py:108-158 | with flat module and chip aliases a valid catalog whose run succeeds stays valid: unique ids, every project-to-module and module-to-chip reference resolves |
| CatalogTheorems.ValidityNeedsFlatness | scripts/consolidate-catalog.py:99-136 | every successful run on every valid catalog leaves it valid if and only if the module and chip aliases are flat |
| CatalogTheorems.SecondRun | scripts/consolidate-catalog.py:108-136 | under any alias map a second run after a successful one folds and drops nothing and only rewrites references once more |
| CatalogTheorems.Idempotent | scripts/consolidate-catalog.py:108-136 | with flat aliases a second run reports no merges and leaves the catalog unchanged |
| CatalogTheorems.IdempotenceNeedsFlatness | scripts/consolidate-catalog.py:99-136 | after every successful run a second one is a no-op, on every catalog, if and only if the module and chip aliases are flat |
| CatalogTheorems.SurvivorsArePriorityMerges | scripts/consolidate-catalog.py:111-126 | under any alias map, chained ones included, with unique ids every survivor is the priority merge of itself and then its group: each entry folded into it in sorted id order, followed by what that one had absorbed by then |
| CatalogTheorems.FlatGroup | scripts/consolidate-catalog.py:111-126 | under a flat alias map the group of an entry is its direct duplicates in sorted id order |
| CatalogTheorems.ProjectReferencesAreNotUnited | scripts/consolidate-catalog.py:128-132 | every project a run writes has the module references of the project with its id, rewritten each once and in order, and none of a project folded into it |
| CatalogTheorems.WrittenModule | scripts/consolidate-catalog.py:111-135 | every surviving module is written as the priority merge of its group with its chip references rewritten, each once and in order, and nothing else changed |
| CatalogTheorems.ReferencesAreDistinct | scripts/consolidate-catalog.py:128-135 | no reference list that a run writes repeats an id |
| CatalogProvenance.FoldingCarries | scripts/consolidate-catalog.py:111-126 | under an ordered alias map, chained or not, the list items, offer keys, spec keys and filled fields of every entry of a collection with unique ids are in one survivor, the one its alias names if that survives |
| CatalogProvenance.OrderedLosesNothing | scripts/consolidate-catalog.py:19-23 | with ordered aliases the list items, offer keys, spec keys and filled fields of every entry of every collection are in one entry of the written catalog, chip references as rewritten |
| CatalogProvenance.UnorderedLoses | scripts/consolidate-catalog.py:115-126 | for any other aliases there is a valid catalog of which a note is lost |
| CatalogProvenance.ProvenanceNeedsOrder | scripts/consolidate-catalog.py:19-23 | no successful run on a catalog with unique ids loses a list item, offer key, spec key or filled field if and only if every alias whose target is itself aliased away sorts before that target; module references of projects are not among these fields |
| CatalogScript.UnionList | scripts/consolidate-catalog.py:63-68 | the loop computes the ordered union |
| CatalogScript.MergeBuy | scripts/consolidate-catalog.py:71-79 | the loop with its set of seen keys computes the ordered union of offers |
| CatalogScript.RemapIds | scripts/consolidate-catalog.py:99-105 | the loop computes the rewritten reference list |
| CatalogScript.MergeInto | scripts/consolidate-catalog.py:82-96 | the canonical entry becomes the merge and the duplicate is unchanged |
| CatalogScript.FoldInPlace | scripts/consolidate-catalog.py:114-124 | the in-place loop over the sorted aliases folds exactly as the step function, or stops at the same missing target |
| CatalogScript.DropAliased | scripts/consolidate-catalog.py:125-126 | the kept entries are the survivors in their order |
| CatalogScript.CatalogFile.Run | scripts/consolidate-catalog.py:108-136 | the whole script on entry objects has the outcome of the consolidation function: the same catalog and merges, or the same missing target |
| CatalogScript.Validate | scripts/consolidate-catalog.py:139-158 | the errors name exactly the ids that occur twice in a collection and the references that do not resolve; there is none exactly on a valid catalog |
| ParentProtocol.StepKeeps | scripts/test-wasm-project.py:114-199 | every request and every outside change keeps the nonce, session and anchor invariants and forgets nothing |
| ParentProtocol.RunKeeps | scripts/test-wasm-project.py:114-199 | every reachable state satisfies the invariants |
| ParentProtocol.RegistrationsAccountedFor | scripts/test-wasm-project.py:119-165 | each nonce backs at most one registration; issued nonces are waiting, registered, refused or wasted; live plus unregistered plus dropped sessions are the registrations, which never exceed the challenges |
| ParentProtocol.RunGrows | scripts/test-wasm-project.py:119-180 | along a run issued and used nonces, started sessions and anchors are only added to, and a pinned key never changes |
| ParentProtocol.RunAnchorsChain | scripts/test-wasm-project.py:166-180 | accepted anchors are numbered 1..n, each names the hash of its predecessor, all are signed under the one pinned key |
| ParentProtocol.ResubmissionIsHarmless | scripts/test-wasm-project.py:167-180 | submitting the newest anchor again changes nothing and is answered with the same sequence number, or refused while anchors are switched off |
| ParentProtocol.ChainsAgree | scripts/test-wasm-project.py:174-179 | hash chains that share an anchor hold it at the same place and share everything before it, or show a hash collision |
| ParentProtocol.SameAnchorSameHistory | scripts/test-wasm-project.py:174-179 | two runs with the same newest anchor accepted equally many anchors, and the same ones unless the two at some earlier place have equal hashes |
| ParentProtocol.RaisedUndoesNothing | scripts/test-wasm-project.py:124-140 | a request that raises changes nothing except that a register request has used up its nonce and the error is noted |
| ParentProtocol.NonceIsSpent | scripts/test-wasm-project.py:124-126 | whatever comes of a register request, the nonce it names is gone, and one whose nonce is not waiting raises |
| ParentProtocol.SpentForever | scripts/test-wasm-project.py:119-126 | along a run, a nonce issued and no longer waiting never waits again |
| ParentProtocol.NonceWorksOnce | scripts/test-wasm-project.py:123-126 | once a register request of a run has named an issued nonce, every later one that names it raises |
| ParentRequests.CallExactly | scripts/test-wasm-project.py:114-119 | which operation each request reaches, by project, switch and method name, and when it reaches none |
| ParentRequests.ChallengeExactly | scripts/test-wasm-project.py:115-122 | a challenge is answered with the fresh token, which then waits; a parent that is down refuses; a request that reaches no operation raises |
| ParentRequests.RegisterExactly | scripts/test-wasm-project.py:123-149 | registered if and only if the nonce waits, the launch facts are stated, the spawn is expected, both signatures verify and the key is the one pinned; refused if and only if only the spawn is unexpected; otherwise raised; and the new state of each |
| ParentRequests.NonceExactly | scripts/test-wasm-project.py:124 | where in a request its nonce stands |
| ParentRequests.HeartbeatExactly | scripts/test-wasm-project.py:150-158 | counted if and only if the session is live and the report is signed under the pinned key; refused if and only if the session is not live; otherwise raised |
| ParentRequests.UnregisterExactly | scripts/test-wasm-project.py:159-165 | the session ends if and only if it is live and the request is signed under the pinned key; otherwise it raises |
| ParentRequests.AnchorExactly | scripts/test-wasm-project.py:166-180 | recorded and answered with the next number if and only if anchors are taken, the statement is signed for this project, has that number and names the hash of the newest; the newest again is acknowledged without effect; otherwise it raises |
| ParentRequests.AnsweredAnchorStays | scripts/test-wasm-project.py:174-180 | a statement answered with a number is the anchor with that number for the rest of the run |
| ParentRequests.AnchorsWereAnswered | scripts/test-wasm-project.py:174-180 | every anchor was submitted by a request of the run and answered with its number |
| ParentRequests.SessionLives | scripts/test-wasm-project.py:142-165 | a live session stays live until the table is cleared or a request to end it is granted |
| ParentRequests.AnsweredRegistrationPins | scripts/test-wasm-project.py:139-149 | a registration that is answered makes its session live and its key the pinned one for the rest of the run |
| ParentService.Parent.constructor | scripts/test-wasm-project.py:71-86 | a new parent has empty tables, zero counters, no key, no adopted process and all switches off, and satisfies the invariants |
| ParentService.Parent.DoAdmit | scripts/test-wasm-project.py:127-149 | the checks behind the nonce and their effects, in order |
| ParentService.Parent.DoRegister | scripts/test-wasm-project.py:123-149 | the register branch moves the fields as the protocol step does |
| ParentService.Parent.DoHeartbeat | scripts/test-wasm-project.py:150-158 | the heartbeat branch, likewise |
| ParentService.Parent.DoUnregister | scripts/test-wasm-project.py:159-165 | the unregister branch, likewise |
| ParentService.Parent.DoAnchor | scripts/test-wasm-project.py:166-180 | the anchor branch, likewise |
| ParentService.Parent.HandleRequest | scripts/test-wasm-project.py:185-199 | one served request with an unused random token is one step of a run: invariants hold, history only grows, the reply is the one the step function gives |
| ParentService.Parent.Clear | scripts/test-wasm-project.py:319 | clearing empties the sessions, changes nothing else and keeps the account |
| ParentService.Parent.Configure | scripts/test-wasm-project.py:283-287 | each switch takes its own value, tables, key and anchors stay, and the invariants hold |
| ShellCommand.ReadShq | clawft-ui/src/playground/core.ts:88-91 | a quoted string reads back as exactly itself unless it holds NUL |
| ShellCommand.ReadAuthLine | clawft-ui/src/playground/core.ts:100-108 | the header line reads as the header with the inlined token or the variable's value, unsplit, in each quoting form |
| ShellCommand.ReadLines | clawft-ui/src/playground/core.ts:101-112 | lines joined by continuations read as one argument list |
| ShellCommand.CurlReads | clawft-ui/src/playground/core.ts:99-113 | for every method that needs no quoting, the command reads as exactly the intended arguments, URL, header and body verbatim, if nothing holds NUL, and as nothing otherwise |
| ShellCommand.MethodsThatReadExactly | clawft-ui/src/playground/core.ts:101 | for this reader, all requests with a method read as intended, in every environment, if and only if the method is not empty and each of its characters reads as itself unquoted |
| ShellCommand.MaskedEqualsUnmasked | clawft-ui/src/playground/core.ts:93-113 | for every non-empty token without NUL, the masked command with the variable set to the token reads as the unmasked one |
| ShellCommand.MaskedHidesToken | clawft-ui/src/playground/core.ts:93-113 | the masked command is the same for every token, and the same as the command without one |
| ShellCommand.MaskedReads | clawft-ui/src/playground/core.ts:99-113 | the masked command reads with the header `Authorization: Bearer ` and the value of WEFT_TOKEN, whatever the token, and with all other arguments as written out |
| ShellCommand.UnmaskedReads | clawft-ui/src/playground/core.ts:99-113 | the unmasked command reads with the header `Authorization: Bearer ` and exactly the token, in every environment |
| ShellCommand.UpperAt | clawft-ui/src/playground/core.ts:101 | the method is put in upper case letter by letter |
| Redaction.IndexOf | clawft-ui/src/playground/core.ts:118 | the leftmost occurrence, or the length when there is none |
| Redaction.SplitJoin | clawft-ui/src/playground/core.ts:118 | splitting on a token and joining with it gives back the text |
| Redaction.NothingToRedact | clawft-ui/src/playground/core.ts:116-119 | without a token, with an empty one, or where it does not occur, the text is returned as it is |
| Redaction.RedactHidesExactly | clawft-ui/src/playground/core.ts:115-119 | the output is free of the token for every text if and only if the token is no part of the mark, does not start with an end of it and does not run into its start in a way that survives replacement |
| Redaction.BracketFreeExactly | clawft-ui/src/playground/core.ts:115-119 | for tokens without square brackets, if and only if the token is no part of the word "redacted" |
| Redaction.IssuedTokensAreHidden | clawft-ui/src/playground/core.ts:102-119 | a token made of `wft_` and hexadecimal digits never occurs in redacted text, across joins included |
| Redaction.BracketTokenLeaks | clawft-ui/src/playground/core.ts:118 | a token with a bracket can reappear although it is no part of the mark |
| KeyedLists.SortCorrect | scripts/cogs/conformance.py:119 | the sort is ordered, a permutation and stable |
| KeyedLists.SortedUnique | scripts/cogs/conformance.py:119 | order and stability determine the sorted list |
| KeyedLists.UpsertContents | scripts/cogs/conformance.py:117-119 | an upsert keeps the elements whose tag was not replaced and adds the newer ones, with multiplicity |
| KeyedLists.UpsertAt | scripts/cogs/conformance.py:117-119 | under each sort key stand first the kept elements and then the newer ones, each in their order |
| KeyedLists.UpsertTwice | scripts/cogs/conformance.py:117-119 | upserting the same elements twice is upserting them once, order included |
| KeyedLists.UpsertsCommuteExactly | scripts/cogs/conformance.py:117-119 | upserts with disjoint tags commute as lists if and only if no sort key is shared |
| Measured.KeysExactly | scripts/cogs/conformance.py:96-98 | two entries share a key if and only if id, cog_id, arch and runtime agree; they are sorted by the four as printed, in that order |
| Measured.StrExactly | scripts/cogs/conformance.py:119 | how keys are printed: null, texts and numbers of either sign |
| Measured.FreshOne | scripts/cogs/conformance.py:109-110 | an entry is taken if and only if its id is a text that starts with `perf.` and its provenance is `measured` |
| Measured.FreshConcat | scripts/cogs/conformance.py:109-110 | entries are taken one by one, in order |
| Measured.MergeContents | scripts/cogs/conformance.py:101-119 | the merged list is sorted and holds exactly the entries whose key was not measured again and the entries taken, and the count is theirs |
| Measured.MergeTwice | scripts/cogs/conformance.py:101-119 | merging the same input twice equals once |
| Measured.MergesCommute | scripts/cogs/conformance.py:101-119 | merges with disjoint keys commute as multisets |
| Measured.MergesCommuteExactly | scripts/cogs/conformance.py:119 | merges with disjoint keys commute as lists if and only if their measured entries have no sort key in common |
| Capabilities.CleanMeans | scripts/cogs/classify.py:44-65 | clean if and only if it ran and posted, a single run ended with code 0, and an interval run made two cycles and was still running at the deadline or had a launcher; and when it is each of the other four verdicts |
| Capabilities.NativeExactly | scripts/cogs/classify.py:68-87 | per architecture and harness, which machine names make a run native: for a container the machine seen and the driving host, for a raw harness the machine seen, which may be an aarch64 kernel for 32-bit arm; an unknown machine never does |
| Capabilities.LowerAt | scripts/cogs/classify.py:87 | machine names are compared in lower case, letter by letter |
| Capabilities.CycleCapsShape | scripts/cogs/classify.py:223-249 | cycle times are measured entries and exist only if some result is clean and native |
| Capabilities.CycleCapOfOne | scripts/cogs/classify.py:234-248 | a clean native result with a cycle time yields one entry with its id, value, arch, runtime and time; any other yields none |
| Capabilities.CycleCapsConcat | scripts/cogs/classify.py:234-249 | results are taken one by one, in order |
| Capabilities.NamesExactly | scripts/cogs/classify.py:26-33 | the names under which architectures and runtimes are recorded |
| Capabilities.CycleCapsRaises | scripts/cogs/classify.py:233-241 | it fails if and only if some clean result with a cycle time meets an unknown arch, or is native and lacks id or mode |
| Capabilities.UpgradeTwice | scripts/cogs/classify.py:252-287 | when it succeeds, applying the same results to its output gives the same output |
| Capabilities.UpgradeIsFair | scripts/cogs/classify.py:252-287 | remaining entries keep their order, id and other fields, and their rank or better; only exercised ones change, to measured, and exactly those below it once a clean native result exists; a changed entry keeps all attributes but the two marks it gains; then come this run's cycle times |
| Capabilities.ExercisedExactly | scripts/cogs/classify.py:263 | which entries a run exercises, by architecture and runtime |
| Capabilities.AnyCleanExactly | scripts/cogs/classify.py:265-266 | a run counts if and only if some result is clean and native, timed or not |
| Capabilities.RemainingOne | scripts/cogs/classify.py:278-280 | an entry goes if and only if it is a cycle time of a cog timed in this run on the same arch and runtime |
| Capabilities.RemainingConcat | scripts/cogs/classify.py:271-286 | entries are kept one by one, in order |
| Capabilities.EmulatedChangesNothing | scripts/cogs/classify.py:76-87 | with a container harness whose driving host does not execute the architecture, the list comes back unchanged |
| Capabilities.UpgradeRaisesExactly | scripts/cogs/classify.py:261-285 | it fails if and only if arch or runtime is unknown, a timed result lacks id or mode, or an entry is malformed, has attributes that are not an object, has a list or object where a cycle time is keyed, or is not replaced and has a list or object as provenance or falsy attributes (such as null) that would have to be marked |
| Capabilities.CycleCapabilities | scripts/cogs/classify.py:233-249 | the loop yields exactly the cycle times of the timed results |
| Capabilities.UpgradeProvenance | scripts/cogs/classify.py:252-287 | the loops compute the upgrade |
| Framing.BigEndianRoundTrip | scripts/mesh-leaf-sim.py:38-39 | the four bytes are the digits of the length to base 256, most significant first, and give back every length below 2^32 |
| Framing.FrameExactly | scripts/mesh-leaf-sim.py:38-39 | there is a frame if and only if the payload is shorter than 4 GiB: its length in four bytes and then the payload |
| Framing.DecodeEncode | scripts/mesh-leaf-sim.py:38-39 | framed payloads come back in order, followed by what the rest of the stream holds |
| Framing.PayloadsAppend | scripts/mesh-leaf-sim.py:73-91 | after complete frames the rest of a stream is read as if it stood alone |
| Framing.DecodeTruncated | scripts/mesh-leaf-sim.py:73-91 | a stream cut after k bytes holds exactly the payloads whose frames fit in k bytes |
| Framing.ReadExact | scripts/mesh-leaf-sim.py:42-49 | for any splitting returns exactly the next n bytes, or a close when fewer were left; it times out if and only if the socket did, after fewer than n bytes |
| Framing.ReadFrame | scripts/mesh-leaf-sim.py:77-85 | one turn of the loop: a whole frame, a close before or after the header, or a timeout with less than a frame read |
| Framing.Receive | scripts/mesh-leaf-sim.py:73-91 | it ends with a timeout if and only if the socket timed out, having received the complete frames of what was read; otherwise, for any splitting, it has received the complete frames of the stream, and the two kinds of close tell how much of a frame was left |
| Framing.Transfer | scripts/mesh-leaf-sim.py:65-91 | a peer that sends framed payloads in time and closes is heard exactly; when a read times out, up to a prefix |

## Left out

- Waves.ComputeWaves: waves and stuck are sets; the order inside a wave (cycle, priority, sequence number) is not modelled.
- CriticalPaths.Search.CriticalPaths: the final sort of the listing and its cut to twelve lines are not modelled.
- TicketGraph.BuildEdges: the regular expressions that find edge requests in ticket text are not modelled; any sequence of requests is covered.
- Descendants.PathFrom: the printed details beside each ticket and the heading line are not modelled.
- Calendar.CivilIsExact: day numbers above 2^63 - 1 - 719468, where adding the offset overflows, are excluded; no number of seconds reaches them.
- Timestamps.StampRoundTrip: the parser covers offset `Z` without a fraction; leap seconds (:60) are not accepted by it.
- ShellCommand.MethodsThatReadExactly: upper case is that of ASCII letters; the reader refuses every unquoted character that section 2.2 of the POSIX.1-2017 Shell Command Language says must or may have to be quoted, and `!`, `{` and `}`, also where a shell would take one literally.
- CatalogMerge.MergesArePriority: list items, scalars and spec values are compared as JSON texts; dictionary order is not modelled.
- CatalogScript.CatalogFile.Run: on a missing target the script exits without writing, so the entries left in memory are not specified.
- ParentProtocol.RunKeeps: random tokens do not repeat within a run, which the source leaves to chance; the byte encodings of signed messages, the certificate, the policy document and the oversize-frame check are not modelled; a message is a value of its kind and fields; JSON fractions and booleans are not among its values.
- Measured.MergeContents: keys are JSON scalars (null, text, integer); reading and atomically replacing the file is not modelled.
- Capabilities.LowerAt: lower case is that of ASCII letters.
- Capabilities.UpgradeIsFair: results are well typed (ids, modes and machines are strings, counts are integers); the informational attributes of a cycle time are one uninterpreted field.
- Framing.Receive: decoding a body for display and the push subprocess are not modelled.
- `takeFragmentToken`, OpenAPI and JSON-schema form building in the playground: no property as hard as those above.
- Summaries, baselines and expectations in `scripts/cogs`, and report writing in the planner: reporting only.
- The Rust kernel, mesh and governance crates: not part of this model.
