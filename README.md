# Policy graph of the customer-support dataset generator

The dataset generator builds synthetic customer-support tickets around a
store policy. The policy is a graph of policy clauses, each with an id,
a title, a rule, conditions, a category, a precedence and lists of related
clauses. This project models in Dafny the deterministic core of that
graph and proves properties of the model.

- **The factory_3.py `PolicyGraph`** (`Engine.PolicyGraph`, built on
  `Policy`, `Conditions`, `Reach` and `Rendering`):
  - adding a clause;
  - the hop-bounded breadth-first search for related clauses;
  - conflict resolution: a stable sort by precedence, then a fold that
    evicts overridden clauses and admits candidates whose conditions
    hold;
  - the six-condition check;
  - rendering the policy document.
- **The rule set of `create_policy_graph`** (`Ruleset`): the nineteen
  clauses, and what conflict resolution does with them.
- **The earlier `PolicyGraph`** of factory_policy_before_graph.py
  (`Discovered.PolicyGraph`):
  - clauses and interactions;
  - per-clause interaction reasons;
  - an undirected graph whose `get_related_policies` is "shortest path
    length at most `max_hops`".
- **The pipeline steps around the graph** (`Pipeline`):
  - naming a category from an id;
  - the primary-policy fallback;
  - the return-window rewrite of a resolution's actions;
  - removing debug metadata from a ticket.
- **The dilution step** of utils/policy_dilution_script.py (`Dilution`):
  it finds the section titles of the policy document and splices
  irrelevant sections in front of them, appending the rest at the end.

The supporting modules:
- `Wrappers`: `Option` and `Result`.
- `Text`: Python's `strip`, `in` on strings, `'=' * n`, `join`, `split`
  and string ordering, modelled on `seq<char>`.
- `Sequences`: duplicate-freedom and the subsequence relation.

Methods model the loops of the source. Each method is proved against a
specification function: `Resolved`, `Interleave`, `HeaderStarts`,
`DocumentLines`, `RewriteReturn` and so on. The properties the source
promises are lemmas about those functions.

Details where the model follows the code's actual behaviour:
- **Interactions are not deduplicated.** `add_interaction` appends to
  `interacts_with`. An unknown id gets the string "No direct interaction
  found", not an error.
- **The newer renderer prints a `Conditions:` line.** factory_3.py's
  `generate_policy_text` writes it whenever a clause has conditions.
  The earlier one prints the bare rule line.
- **POL-RETURN-002 has a condition.** In the rule set it carries
  `within_return_window`, so past thirty days none of the three return
  clauses survives (`Ruleset.ReturnsOutsideWindow`).
- **The title scan skips a line after a title.** It records line `j`
  as a section start exactly when `j` is a title and line `j - 1` was
  not recorded (`Dilution.HeaderStartsExactly`). It does not record
  every title line.
- **Unknown candidates make `resolve_conflicts` fail.** Candidates that
  are not clauses raise `KeyError` before the fold starts. This is
  modelled as `Failure(KeyError(id))`, with the first unknown id in list
  order.

## Model

| member | source | states |
|---|---|---|
| Conditions.ConditionHolds | factory_3.py:150-161 | one branch of the `elif` chain per condition name, with the source's `.get` defaults; any other name holds |
| Conditions.CheckConditions | factory_3.py:147-162 | `_check_conditions`: the walk that stops at the first failing condition; `CheckConditionsIffAll` characterises it |
| Conditions.KnownOnly | factory_3.py:149-161 | the conditions among the six names, in order; reference for `UnknownConditionsIgnored` |
| Conditions.CheckConditionsIffAll | factory_3.py:147-162 | the early-exit walk over a clause's conditions accepts exactly the lists whose every condition holds; the empty list passes |
| Conditions.ThresholdBoundaries | factory_3.py:150-161 | worked example, by computation: the boundaries: the return window admits day 30 and refuses 31; the price-match window admits 14 and refuses 15; `item_over_500` refuses 500.0; the warranty admits 12 months; a missing receipt, a shipped or a delivered order fail; with no facts every condition except `item_over_500` holds (the defaults) |
| Conditions.UnknownConditionsIgnored | factory_3.py:149-162 | a condition name outside the six never makes a clause fail |
| Conditions.FewerDaysKeepPassing | factory_3.py:152-154 | lowering the day count never turns a passing clause into a failing one |
| Policy.Relations | factory_3.py:87-90 | the adjacency list `add_clause` stores: the six relation lists concatenated in source order |
| Policy.InsertByPrecedence | factory_3.py:125 | one insertion step of the stable sort; keeps the multiset and the known ids |
| Policy.SortByPrecedence | factory_3.py:125 | `sorted(clause_ids, key=precedence)`; a permutation of its input (and, by `SortByPrecedenceIsStableSort`, stable and ordered) |
| Policy.Unoverridden | factory_3.py:132-134 | the active list after the pruning loop; characterised by `UnoverriddenFilters` |
| Policy.RemoveFirst | factory_3.py:134 | `list.remove`: drops the first occurrence |
| Policy.IsOverridden | factory_3.py:137-138 | the `any(...)` test: some active clause lists the candidate in its `overrides` |
| Policy.Admit | factory_3.py:129-143 | one iteration of the loop of `resolve_conflicts`: prune, then append unless overridden or failing; `AdmitIsSound` is its invariant |
| Policy.Resolved | factory_3.py:127-145 | the loop of `resolve_conflicts` as a fold of `Admit` over the sorted candidates; `ResolvedIsSound` states what it guarantees |
| Policy.Resolve | factory_3.py:119-145 | `resolve_conflicts`: `[]` for no candidates, `KeyError` on the first unknown id, otherwise `Resolved` over the precedence-sorted list; `ResolveGuarantees` states its properties |
| Policy.RelationsAreTheSixLists | factory_3.py:87-90 | the adjacency list holds exactly the ids of the six relation lists, and its length is their total; duplicates are kept |
| Policy.FirstUnknown | factory_3.py:125 | the key lookup fails exactly when some candidate is not a clause, and the id it fails on is a candidate and not a clause |
| Policy.SortByPrecedenceIsStableSort | factory_3.py:125 | `sorted(..., key=precedence)` returns a permutation of its input, ordered by precedence, that keeps the input order among equal precedences |
| Policy.InsertByPrecedenceSorted | factory_3.py:125 | inserting into a precedence-sorted list keeps it sorted |
| Policy.InsertByPrecedenceStable | factory_3.py:125 | insertion keeps the relative order of each precedence class |
| Policy.RemoveFirstAfter | factory_3.py:134 | `list.remove(x)` drops the first occurrence of `x` |
| Policy.UnoverriddenFilters | factory_3.py:132-134 | the pruning loop keeps an active clause exactly when the newcomer does not override it, in their order |
| Policy.ResolvedIsSound | factory_3.py:127-145 | the fold's result is a subsequence of the sorted candidates, every clause in it passes its conditions, and no clause in it overrides another at a different position |
| Policy.AdmitIsSound | factory_3.py:128-143 | one iteration of the fold keeps the three guarantees of `ResolvedIsSound` |
| Policy.AppendIsSound | factory_3.py:140-143 | appending a candidate that passes and is not overridden keeps the three guarantees |
| Policy.ConflictFreeAppend | factory_3.py:137-143 | appending keeps the result conflict-free exactly when the newcomer and the entries do not override each other |
| Policy.UnoverriddenConflictFree | factory_3.py:132-134 | pruning keeps a conflict-free list conflict-free |
| Policy.UnchallengedClauseIsActive | factory_3.py:127-145 | a candidate that passes its conditions and is overridden by no candidate is in the result |
| Policy.SubseqOfSortedIsSorted | factory_3.py:125-145 | the result stays in precedence order, because it is a subsequence of the sorted list |
| Policy.ResolveGuarantees | factory_3.py:119-145 | no candidates gives `[]`; an unknown candidate gives a failure naming an unknown candidate, and only then; otherwise the result is sorted by precedence, passes every condition, is conflict-free and consists of candidates |
| Policy.PrecedenceAuthority | factory_3.py:125-143 | a passing clause that outranks and overrides another is the single result, in either candidate order |
| Policy.SortPair | factory_3.py:125 | worked example, by computation: two clauses of different precedence sort higher-authority first, whatever their input order |
| Policy.ResolvedPair | factory_3.py:128-143 | after a passing clause is admitted, a clause it overrides is not admitted |
| Policy.ResolvedIndependentPair | factory_3.py:128-143 | of two clauses with no override between them, the first (which passes) is admitted, and the second is admitted exactly when its conditions hold |
| Policy.ResolvedTriad | factory_3.py:128-143 | over `[c, a, b]` with `c` passing and overriding only `b`, the fold gives `c`, then `a` exactly when `a` passes; `b` is suppressed whatever its conditions |
| Policy.AdmitUnchallenged | factory_3.py:140-143 | worked example, by computation: a passing candidate is admitted to an empty active list |
| Policy.AdmitOverridden | factory_3.py:137-140 | a candidate overridden by an active clause is not admitted |
| Policy.UnoverriddenNone | factory_3.py:132-134 | pruning removes nothing when the newcomer overrides no active clause |
| Policy.AdmitBeside | factory_3.py:128-143 | a candidate with no override link to the active clauses is appended exactly when its conditions hold |
| Policy.AdmitSuppressed | factory_3.py:136-140 | a candidate overridden by an active clause leaves the active list unchanged |
| Policy.NoneQualify | factory_3.py:140-143 | when no candidate passes, the fold admits nothing |
| Policy.ResolveNoneQualify | factory_3.py:119-145 | `resolve_conflicts` returns `[]` when every candidate fails its conditions |
| Policy.OutrankedCandidateDropped | factory_3.py:119-145 | of three candidates, where the highest authority overrides the lowest, the result is the highest, then the middle one if it passes; the overridden one is dropped whatever its conditions |
| Policy.SortTriad | factory_3.py:125 | worked example, by computation: three candidates sort by precedence, ties in input order |
| Policy.SortTail | factory_3.py:125 | worked example, by computation: two candidates out of precedence order are swapped |
| Policy.InsertSecond | factory_3.py:125 | worked example, by computation: insertion passes a higher-authority entry and stops before an equal one |
| Policy.SortOnlyReadsPrecedence | factory_3.py:125 | the sort reads nothing of a clause but its precedence |
| Policy.InsertOnlyReadsPrecedence | factory_3.py:125 | insertion reads nothing of a clause but its precedence |
| Policy.ResolvedOnlyReadsAuthority | factory_3.py:127-145 | the fold reads only precedence, conditions and `overrides` |
| Policy.OnlyOverridesMatter | factory_3.py:119-145 | `resolve_conflicts` ignores the five other relation lists, the title, the rule and the category |
| Policy.FirstUnknownSameKeys | factory_3.py:125 | which id fails depends only on the set of keys |
| Reach.Successors | factory_3.py:112-115 | the ids one adjacency step away from a set |
| Reach.Within | factory_3.py:92-117 | the reference the search is proved against: the ids reachable along at most `k` directed edges |
| Reach.Enqueued | factory_3.py:113-115 | the entries the neighbour loop appends; `EnqueuedMembers` characterises it |
| Reach.WithinMonotonic | factory_3.py:92-117 | allowing more hops never loses a reachable clause |
| Reach.WithinStep | factory_3.py:112-115 | one more edge from a clause within `k` hops lands within `k + 1` |
| Reach.WithinUniverse | factory_3.py:112-115 | a reachable id is the start or the target of some edge |
| Reach.EnqueuedMembers | factory_3.py:113-115 | the neighbour loop queues exactly the unvisited neighbours, one hop further |
| Reach.EnqueueNeighbours | factory_3.py:112-115 | the neighbour loop appends the entries `Enqueued` names, in adjacency order |
| Reach.ClosedLevelsComplete | factory_3.py:101-117 | when the queue is exhausted, every id within `k ≤ max_hops` hops was visited at a level of at most `k` |
| Reach.SearchStarts | factory_3.py:97-99 | the initial state satisfies the loop invariant |
| Reach.SkipKeeps | factory_3.py:102-105 | skipping a visited or too-distant entry keeps the loop invariant |
| Reach.QueuePop | factory_3.py:102 | popping the front keeps the queue sorted by hop count |
| Reach.QueueAppend | factory_3.py:115 | appending one-hop-further neighbours keeps the queue sorted and sound |
| Reach.VisitKeeps | factory_3.py:107-115 | visiting an entry and queueing its neighbours keeps the loop invariant |
| Reach.AddedSound | factory_3.py:113-115 | every queued neighbour is one hop further and really reachable; every unvisited neighbour is queued |
| Reach.FrontierAfterVisit | factory_3.py:107-115 | every neighbour of a clause visited below the bound is visited, or is queued at most one hop further |
| Reach.RelatedAfterVisit | factory_3.py:108-109 | the result stays duplicate-free, excludes the start and is ordered by hop count |
| Reach.SearchStep | factory_3.py:101-115 | one iteration keeps the invariant and shrinks the set of unvisited ids |
| Reach.Explore | factory_3.py:97-117 | the BFS returns each clause within `max_hops` hops of the start exactly once, never the start itself, in non-decreasing hop distance |
| Reach.ExploreMembers | factory_3.py:101-117 | at the end of the loop, the result is exactly the reachable clauses other than the start |
| Reach.ExploreOrder | factory_3.py:101-117 | at the end of the loop, a clause nearer the start is never listed after a farther one |
| Rendering.CategoryOrder | factory_3.py:166-174 | the keys of the `categories` dictionary: each category once, in first-encounter order |
| Rendering.Group | factory_3.py:166-170 | the clauses of one category, in dictionary order; `GroupIsCategoryFilter` characterises it |
| Rendering.ItemLines | factory_3.py:179-182 | the `[id] title` line followed by the clause's detail lines |
| Rendering.ItemsLines | factory_3.py:178-182 | the lines of a sorted group, item after item |
| Rendering.SectionLines | factory_3.py:174-182 | one category: header, `=` underline, then its items sorted by id |
| Rendering.SectionsLines | factory_3.py:174-182 | the sections of the given categories, one after the other |
| Rendering.DocumentLines | factory_3.py:164-184 | the `policy_text` list before it is joined; `EveryItemRendered` and `CategoryOrderNoDup` state what it contains |
| Rendering.InsertById | factory_3.py:178 | inserting by id keeps the multiset of items |
| Rendering.SortById | factory_3.py:178 | sorting by id is a permutation |
| Rendering.GroupByCategory | factory_3.py:166-170 | the `categories` dictionary has one key per category, in first-encounter order, each holding that category's clauses in order |
| Rendering.EmitSection | factory_3.py:174-182 | one category gives its header, an underline of `=` of the same length, then its items sorted by id |
| Rendering.EmitItems | factory_3.py:178-182 | the inner loop emits `[id] title`, then the detail lines of each item |
| Rendering.RenderDocument | factory_3.py:164-184 | the document is the joined lines of every section, in first-encounter order of category |
| Rendering.GroupAbsent | factory_3.py:166-170 | a category that never occurs has no clauses |
| Rendering.CategoryOrderNoDup | factory_3.py:168-174 | no category is printed twice |
| Rendering.CategoryOrderMembers | factory_3.py:166-174 | the printed categories are exactly those that occur among the clauses |
| Rendering.CategoryOrderFirstEncounter | factory_3.py:166-174 | categories come in first-encounter order: a prefix of the clauses yields a prefix of the categories |
| Rendering.GroupIsCategoryFilter | factory_3.py:166-170 | a group holds exactly the clauses of its category, in dictionary order |
| Rendering.InsertByIdSorted | factory_3.py:178 | insertion keeps a list sorted by id |
| Rendering.SortByIdSorted | factory_3.py:178 | within a category, clauses come out sorted by id, as a permutation |
| Rendering.ItemsLinesHasHeads | factory_3.py:178-182 | every item of a section is printed with its head line and its detail lines |
| Rendering.SectionsLinesHasSections | factory_3.py:174-182 | every clause of a printed category is printed |
| Rendering.EveryItemRendered | factory_3.py:164-184 | every clause appears in the document with its `[id] title` line and its details |
| Engine.ClauseItem | factory_3.py:179-182 | the entry of one clause: `Rule: ` and the rule, then `Conditions: ` and the joined conditions when there are any |
| Engine.ClauseItems | factory_3.py:167 | `clauses.values()` in key order: entry `i` is the clause filed under the `i`-th key |
| Engine.PolicyGraph.constructor | factory_3.py:79-81 | a new graph has no clauses and no edges |
| Engine.PolicyGraph.AddClause | factory_3.py:83-90 | the clause is filed under its id, replacing any clause with the same id without moving it in the key order, and its adjacency list is the six relation lists |
| Engine.PolicyGraph.GetRelatedPolicies | factory_3.py:92-117 | an unknown id gives `[]`; otherwise the result is the clauses within `max_hops` directed hops, each once, without the start, nearest first |
| Engine.PolicyGraph.CheckClauseConditions | factory_3.py:147-162 | true exactly when every condition of the clause holds |
| Engine.PolicyGraph.ResolveConflicts | factory_3.py:119-145 | equals `Resolve`: on success, the result is precedence-ordered, passes every condition and is conflict-free |
| Engine.PolicyGraph.AdmitCandidate | factory_3.py:129-143 | one iteration of the loop: prune, test `is_overridden`, test the conditions, append |
| Engine.PolicyGraph.AnyOverrides | factory_3.py:137-138 | true exactly when some active clause lists the candidate in its `overrides` |
| Engine.PolicyGraph.GeneratePolicyText | factory_3.py:164-184 | the text is the joined document lines; every clause's `[id] title` line and `Rule:` line appear in it, and its `Conditions: a, b` line whenever it has conditions |
| Engine.PruneOverridden | factory_3.py:132-134 | the loop over a copy that removes each overridden clause leaves exactly the unoverridden ones, in order |
| Engine.PolicyTextIgnoresMetadata | factory_3.py:164-184 | the document depends only on the id, title, rule, conditions and category of each clause, never on precedence or relations |
| Ruleset.StoreOf | factory_3.py:83-85 | the `clauses` dictionary that adding the clauses one after the other builds |
| Ruleset.OrderOf | factory_3.py:83-85 | the key order that adding the clauses one after the other builds |
| Ruleset.Ids | factory_3.py:186-375 | the ids of the clause list, position by position |
| Ruleset.StoreOfLookup | factory_3.py:83-85 | with distinct ids, adding each clause of the list files it under its own id |
| Ruleset.CreatePolicyGraph | factory_3.py:186-375 | a fresh valid graph holding the nineteen clauses of the rule set, in insertion order |
| Ruleset.AddClauses | factory_3.py:188-375 | adding clauses one after the other to an empty graph builds `StoreOf` and `OrderOf` of the list |
| Ruleset.CodesIncrease | factory_3.py:186-375 | increasing codes along a list are pairwise increasing |
| Ruleset.FixtureIdsListed | factory_3.py:186-375 | the clause ids, in insertion order |
| Ruleset.FixtureIdsListDistinct | factory_3.py:186-375 | the listed ids are distinct |
| Ruleset.FixtureIdsDistinct | factory_3.py:186-375 | no clause of the rule set replaces another |
| Ruleset.FixtureWellFormed | factory_3.py:186-375 | every precedence lies in 1..5 and every condition named is one of the six |
| Ruleset.ReturnClausesAuthority | factory_3.py:191-232 | what conflict resolution reads of POL-RETURN-001, -002 and -004 |
| Ruleset.ReturnConditions | factory_3.py:195-227 | POL-RETURN-004 and -002 pass exactly within thirty days; POL-RETURN-001 needs the window and the receipt |
| Ruleset.ReturnsInsideWindow | factory_3.py:119-145 | within thirty days and with a receipt, resolving the three return clauses gives POL-RETURN-004, then POL-RETURN-001; POL-RETURN-002 is overridden |
| Ruleset.ReturnsWithoutReceipt | factory_3.py:147-151 | within thirty days but without a receipt, only POL-RETURN-004 survives |
| Ruleset.ReturnsOutsideWindow | factory_3.py:152-153 | past thirty days, none of the three return clauses survives |
| Ruleset.FixtureHasReturnClauses | factory_3.py:191-232 | the rule set files the three return clauses under their ids |
| Ruleset.FixtureReturnsInsideWindow | factory_3.py:186-375 | within the window with a receipt, the rule set's return clauses resolve to POL-RETURN-004, then POL-RETURN-001 |
| Ruleset.FixtureReturnsOutsideWindow | factory_3.py:186-375 | past the window, the rule set's return clauses resolve to nothing |
| Ruleset.FixtureReturnAuthority | factory_3.py:191-232 | the rule set meets `ReturnAuthority` |
| Ruleset.FixtureWarrantyExclusionsWin | factory_3.py:298-316 | within the warranty period, POL-WARRANTY-003 overrides POL-WARRANTY-002 in either candidate order |
| Discovered.Reasoning | factory_policy_before_graph.py:135-139 | `get_interaction_reasoning`: the reason `a` keeps for `b`, or "No direct interaction found" |
| Discovered.NoteSide | factory_policy_before_graph.py:102-108 | one `if` of `add_interaction`: a known clause appends the partner and keeps the reason |
| Discovered.RecordInteraction | factory_policy_before_graph.py:101-108 | the clause updates of `add_interaction`, `policy_a`'s side first; `RecordInteractionUpdates` and `RecordedReasonBothWays` state their effect |
| Discovered.Adjacent | factory_policy_before_graph.py:111 | an undirected edge joins the two ids |
| Discovered.UWithin | factory_policy_before_graph.py:126-127 | the nodes at undirected distance at most `k`; `WithinIffLinked` ties it to shortest paths |
| Discovered.RelatedAmong | factory_policy_before_graph.py:122-133 | the loop over `nx_graph.nodes()` in insertion order; `RelatedAmongFilters` characterises it |
| Discovered.ClauseItem | factory_policy_before_graph.py:168-169 | the entry of one clause: the bare rule line |
| Discovered.RecordInteractionUpdates | factory_policy_before_graph.py:101-108 | recording keeps the set of clauses and their ids, appends the other endpoint to each known endpoint's `interacts_with`, and leaves the other clauses alone |
| Discovered.InteractionKeepsConsistent | factory_policy_before_graph.py:97-114 | `add_interaction` keeps every clause filed under its id and every edge endpoint a node |
| Discovered.RecordedReasonBothWays | factory_policy_before_graph.py:101-139 | after recording, each known endpoint gives the interaction's reasoning for the other; an unknown one gives "No direct interaction found" |
| Discovered.RecordKeepsOtherReasons | factory_policy_before_graph.py:101-108 | recording changes no other reason |
| Discovered.RecordKeepsSymmetry | factory_policy_before_graph.py:101-108 | reasons that read the same both ways between clauses still do after recording |
| Discovered.AddNode | factory_policy_before_graph.py:93-111 | adding a node adds exactly that id, without duplicates |
| Discovered.Neighbours | factory_policy_before_graph.py:111-126 | the nodes one undirected edge away |
| Discovered.UWithinMonotonic | factory_policy_before_graph.py:126-127 | a larger bound never loses a node |
| Discovered.WithinHasWalk | factory_policy_before_graph.py:126-127 | a node in the search set is reached by a path of at most `k` edges |
| Discovered.WalkExtend | factory_policy_before_graph.py:126 | a path followed by an edge is a path |
| Discovered.WalkWithin | factory_policy_before_graph.py:126-127 | the end of a path of at most `k` edges is in the search set |
| Discovered.WithinIffLinked | factory_policy_before_graph.py:126-127 | the search set is exactly the nodes with `shortest_path_length <= k` |
| Discovered.Reverse | factory_policy_before_graph.py:126 | a path read backwards, position by position |
| Discovered.WithinSymmetric | factory_policy_before_graph.py:111-126 | undirected distance is symmetric |
| Discovered.RelatedAmongFilters | factory_policy_before_graph.py:122-133 | the loop keeps, in node order, exactly the other nodes within `max_hops`, without duplicates |
| Discovered.RelatedMonotonic | factory_policy_before_graph.py:127 | a larger `max_hops` never loses a related clause |
| Discovered.RelatedSymmetric | factory_policy_before_graph.py:122-133 | if `v` is related to `u`, then `u` is related to `v` |
| Discovered.ClauseItems | factory_policy_before_graph.py:156 | `clauses.values()` in key order |
| Discovered.PolicyGraph.constructor | factory_policy_before_graph.py:85-88 | a new graph is empty |
| Discovered.PolicyGraph.AddClause | factory_policy_before_graph.py:90-95 | the clause is filed under its id and its id becomes a node; edges and interactions are unchanged |
| Discovered.PolicyGraph.AddInteraction | factory_policy_before_graph.py:97-114 | the interaction is logged, recorded on both endpoints' clauses, and added as an edge, whose endpoints become nodes |
| Discovered.PolicyGraph.GetInteractionReasoning | factory_policy_before_graph.py:135-139 | the stored reason when `a` is a clause that has one for `b`, "No direct interaction found" otherwise |
| Discovered.PolicyGraph.GetRelatedPolicies | factory_policy_before_graph.py:116-133 | `[]` for a non-node; otherwise, in node order and without duplicates, exactly the other nodes a path of at most `max_hops` edges reaches |
| Discovered.PolicyGraph.GeneratePolicyText | factory_policy_before_graph.py:153-171 | the text is the joined document lines; every clause's `[id] title` line and bare rule line appear in it |
| Pipeline.FirstFamily | factory_policy_before_graph.py:232-246 | an `elif` chain over keyword families: the first family whose keyword occurs |
| Pipeline.CategoryFromId | factory_policy_before_graph.py:232-246 | the seven-family category chain of `parse_policy_document`, "Unknown" by default |
| Pipeline.TemplateCategory | factory_policy_before_graph.py:1153-1163 | the five-family chain of the primary-policy fallback, `""` by default |
| Pipeline.FirstOfCategory | factory_policy_before_graph.py:1166-1169 | the `for` loop: the first clause of the category in insertion order, if any |
| Pipeline.PrimaryPolicy | factory_policy_before_graph.py:1150-1172 | the primary-policy choice with its `for ... else` fallback; `PrimaryPolicyChoice` states its properties |
| Pipeline.HolidayExtension | factory_policy_before_graph.py:1534 | POL-HOLIDAY-001 applies, the purchase month is 11 or 12 and the purchase is at most 45 days old |
| Pipeline.RewriteReturn | factory_policy_before_graph.py:1529-1539 | the return-window rule on one action; `RewriteReturnCases` states exactly when and how it changes the action |
| Pipeline.CategoryIsFirstFamily | factory_policy_before_graph.py:232-246 | the `elif` chain is the first family, in order, whose keyword occurs in the id |
| Pipeline.FirstFamilyChoice | factory_policy_before_graph.py:232-246 | the default is returned exactly when no keyword occurs; otherwise some family's keyword occurs and no earlier family's does |
| Pipeline.CategoryFromIdDecided | factory_policy_before_graph.py:232-246 | the category is "Unknown" exactly when no keyword occurs; otherwise it names the first family whose keyword does |
| Pipeline.TemplateCategoryAgrees | factory_policy_before_graph.py:1153-1163 | the template chain names the same category as the parser's chain, and none exactly when no keyword among its five occurs |
| Pipeline.FirstOfCategoryIsFirst | factory_policy_before_graph.py:1166-1169 | the `for ... else` loop finds the first clause of the category in insertion order, or none exactly when there is none |
| Pipeline.PrimaryPolicyChoice | factory_policy_before_graph.py:1150-1172 | the template's primary policy is kept when it is a clause; otherwise the first clause of its category, in insertion order, is chosen; when no clause has that category, the first clause; "POL-UNKNOWN-001" only when there are no clauses |
| Pipeline.SelectPrimaryPolicy | factory_policy_before_graph.py:1150-1176 | computes `PrimaryPolicy`, then lists it before its related clauses within two hops |
| Pipeline.RewriteReturnCases | factory_policy_before_graph.py:1526-1539 | an action changes exactly when it is a return past thirty days not covered by the holiday extension, and then becomes a denied return with value 0 and a reason naming the day count |
| Pipeline.RewriteReturnIdempotent | factory_policy_before_graph.py:1532-1539 | worked example, by computation: enforcing the window twice changes nothing more |
| Pipeline.Resolution.constructor | factory_policy_before_graph.py:1507-1510 | a resolution holding the given actions, with or without a `customer_lookup` |
| Pipeline.Resolution.Validate | factory_policy_before_graph.py:1510-1539 | stamps the order id and date (or "N/A"), the customer id when there is a lookup, and the applicable policies, and rewrites every action by the return-window rule in place |
| Pipeline.RewriteActions | factory_policy_before_graph.py:1526-1539 | every action of the array is replaced by its rewrite |
| Pipeline.StripDebugMetadata | factory_policy_before_graph.py:1588-1599 | the copy holds exactly the ticket's keys other than the four debug keys, each with its original value |
| Dilution.IsHeader | utils/policy_dilution_script.py:184-188 | on stripped lines: the line and the next are not blank and the next contains `=====` |
| Dilution.TitleAt | utils/policy_dilution_script.py:184-188 | the scan's test as written, on unstripped lines |
| Dilution.HeaderStarts | utils/policy_dilution_script.py:182-205 | the section starts the scan records, jumping two lines past each title; `HeaderStartsExactly` characterises it |
| Dilution.Block | utils/policy_dilution_script.py:226-232 | the five lines spliced in front of a section start |
| Dilution.EndBlock | utils/policy_dilution_script.py:243-248 | the four lines appended for a section placed at the end |
| Dilution.Flatten | utils/policy_dilution_script.py:240-250 | the end blocks one after the other |
| Dilution.Splice | utils/policy_dilution_script.py:236 | `result_lines[q:q] = block` |
| Dilution.Weave | utils/policy_dilution_script.py:219-250 | the placement of blocks at the first `min(#sections, #starts)` starts, the rest appended |
| Dilution.Diluted | utils/policy_dilution_script.py:174-250 | the diluted document as lines: `Weave` at the scan's section starts; the `Diluted*` lemmas state its properties |
| Dilution.Stripped | utils/policy_dilution_script.py:184-185 | each line with `.strip()` applied |
| Dilution.HeaderStartsShape | utils/policy_dilution_script.py:182-205 | every recorded line is a title at or after the scan's starting line |
| Dilution.HeaderStartsSpaced | utils/policy_dilution_script.py:189-192 | the line right above a recorded title is never recorded, because the scan jumps past the underline |
| Dilution.StartsAreAscending | utils/policy_dilution_script.py:182-208 | the section starts are line indices of the document, strictly ascending |
| Dilution.HeaderStartsAscending | utils/policy_dilution_script.py:182-205 | the scan records lines in strictly ascending order |
| Dilution.HeaderStartsComplete | utils/policy_dilution_script.py:182-205 | every title line is recorded unless the line above it was |
| Dilution.HeaderStartsExactly | utils/policy_dilution_script.py:182-205 | line `j` is a section start exactly when it is a title and line `j - 1` is not a section start |
| Dilution.TitleAtIsHeader | utils/policy_dilution_script.py:184-188 | the scan's test `current_line and next_line and '=' * 5 in next_line` is the title test on stripped lines |
| Dilution.FindSectionBoundaries | utils/policy_dilution_script.py:177-208 | the boundaries are the section starts, followed by the line count |
| Dilution.SkipToNextTitle | utils/policy_dilution_script.py:195-203 | the inner loop stops at the next title line, or at the end of the document, skipping no recordable start |
| Dilution.Blocks | utils/policy_dilution_script.py:226-232 | the five-line block of each section, in order |
| Dilution.EndBlocks | utils/policy_dilution_script.py:243-248 | the four-line end block of each section, in order |
| Dilution.StrictlyAscendingPrefix | utils/policy_dilution_script.py:219-222 | a prefix of ascending positions is ascending |
| Dilution.StrictlyAscendingBounds | utils/policy_dilution_script.py:219-222 | ascending positions stay within their bounds |
| Dilution.StrictlyAscendingOrder | utils/policy_dilution_script.py:219-222 | ascending positions are pairwise ordered |
| Dilution.SpliceAt | utils/policy_dilution_script.py:236 | `result_lines[q:q] = block` puts the five lines at `q`, in front of what stood there |
| Dilution.SpliceBefore | utils/policy_dilution_script.py:236 | a splice leaves what stands before its place where it was |
| Dilution.SpliceKeeps | utils/policy_dilution_script.py:236 | a splice keeps the old lines, in order |
| Dilution.Interleave | utils/policy_dilution_script.py:221-237 | the splicing loop adds five lines per section it places |
| Dilution.InterleaveKeepsLines | utils/policy_dilution_script.py:221-237 | the splicing loop keeps the document's lines, in order |
| Dilution.InterleaveShifts | utils/policy_dilution_script.py:234-237 | a line at or past every insertion point moves down five lines per insertion |
| Dilution.InterleavePlacesLast | utils/policy_dilution_script.py:234-237 | the block inserted last sits right in front of its section title, shifted by the earlier insertions |
| Dilution.InterleavePlaces | utils/policy_dilution_script.py:234-237 | block `i` sits at `boundaries[i] + 5 * i`, right in front of the line that was at `boundaries[i]`; the `offset` accounts for earlier insertions |
| Dilution.FlattenPlaces | utils/policy_dilution_script.py:240-250 | the end blocks follow each other in order, four lines each |
| Dilution.FlattenLength | utils/policy_dilution_script.py:240-250 | the end blocks add four lines per section |
| Dilution.WeaveLength | utils/policy_dilution_script.py:219-250 | five lines per placed section and four per appended one |
| Dilution.WeaveKeepsLines | utils/policy_dilution_script.py:219-250 | the document's lines are kept, in order |
| Dilution.WeavePlacesBetween | utils/policy_dilution_script.py:219-237 | block `i`, for `i` below `min(#sections, #starts)`, sits right in front of section start `i` |
| Dilution.WeaveAppendsRest | utils/policy_dilution_script.py:240-250 | the remaining sections come after the document, in order |
| Dilution.DilutedLength | utils/policy_dilution_script.py:174-250 | the diluted document has five more lines per section placed in front of a title and four more per section appended |
| Dilution.DilutedKeepsLines | utils/policy_dilution_script.py:174-250 | the original lines are a subsequence of the diluted document |
| Dilution.DilutedPlacesBetween | utils/policy_dilution_script.py:174-237 | section `i` goes right in front of the `i`-th section title, `5 * i` lines below where the title stood |
| Dilution.DilutedAppendsRest | utils/policy_dilution_script.py:219-250 | sections beyond the number of section starts (the final boundary, `len(lines)`, excluded) are appended, in order, after the document |
| Dilution.NoTitlesNoStarts | utils/policy_dilution_script.py:182-205 | without title lines the scan records nothing |
| Dilution.DilutedWithoutTitles | utils/policy_dilution_script.py:208-250 | a document without titles gets every section appended at its end |
| Dilution.InsertSectionsStrategically | utils/policy_dilution_script.py:174-252 | the result is `Diluted` of the split lines and the shuffled sections, joined with newlines |
| Dilution.SpliceBlocks | utils/policy_dilution_script.py:215-237 | the splicing loop with its running `offset` computes `Interleave` |
| Dilution.AppendBlocks | utils/policy_dilution_script.py:240-250 | the `extend` loop appends every end block in order |
| Text.TrimStart | utils/policy_dilution_script.py:184 | `lstrip()` |
| Text.TrimEnd | utils/policy_dilution_script.py:184 | `rstrip()` |
| Text.Strip | utils/policy_dilution_script.py:184 | `strip()`, characterised by `StripIsTrimmedInfix` |
| Text.Contains | utils/policy_dilution_script.py:188 | `pat in s`, characterised by `ContainsIffOccurs` |
| Text.Join | utils/policy_dilution_script.py:252 | `sep.join(parts)`, the inverse of `Split` by `JoinSplit` and `SplitJoin` |
| Text.StrLess | factory_3.py:178 | Python's `<` on strings, a strict total order by the `StrLess*` lemmas |
| Text.TrimStartDropsSpace | utils/policy_dilution_script.py:184 | the leading whitespace removed is all whitespace, and what remains starts with none |
| Text.TrimEndDropsSpace | utils/policy_dilution_script.py:184 | the same for trailing whitespace |
| Text.StripIsTrimmedInfix | utils/policy_dilution_script.py:184 | `strip()` returns an infix of the line, bounded by non-whitespace, with only whitespace cut away |
| Text.StripEmptyIffAllSpace | utils/policy_dilution_script.py:188 | a stripped line is empty exactly when the line is all whitespace |
| Text.ContainsIffOccurs | utils/policy_dilution_script.py:188 | `pat in s` holds exactly when `pat` occurs at some position of `s` |
| Text.Repeat | utils/policy_dilution_script.py:229 | `c * n` is `n` copies of `c` |
| Text.Split | utils/policy_dilution_script.py:177 | `split` gives at least one piece, none containing the separator |
| Text.JoinSplit | utils/policy_dilution_script.py:177-252 | joining the pieces of a split with its separator gives back the string |
| Text.SplitJoin | utils/policy_dilution_script.py:177-252 | splitting a join of separator-free pieces gives back the pieces |
| Text.SplitPrefix | utils/policy_dilution_script.py:177 | a separator-free prefix joins the first piece |
| Text.JoinConsChar | utils/policy_dilution_script.py:252 | a character in front of the first piece is in front of the join |
| Text.DecimalString | factory_policy_before_graph.py:1538 | `f"{days}"` for the day count: a non-empty string of decimal digits |
| Text.Digit | factory_policy_before_graph.py:1538 | a digit character, whose value is the digit |
| Text.DigitsValue | factory_policy_before_graph.py:1538 | the number a digit string spells, most significant digit first; used to state what `DecimalString` writes |
| Text.DecimalStringValue | factory_policy_before_graph.py:1538 | the string written for `n` spells `n`, and starts with `0` exactly when `n` is 0 (no leading zeros) |
| Text.StrLessIrreflexive | factory_3.py:178 | string order is irreflexive |
| Text.StrLessTransitive | factory_3.py:178 | string order is transitive |
| Text.StrLessTotal | factory_3.py:178 | string order is total |
| Text.StrLessAsymmetric | factory_3.py:178 | string order is asymmetric |

## Left out

- **Not modelled, because they call code that cannot be seen:**
  - the language-model calls and the JSON parsing of their output;
  - the scenario templates and the generation of orders, customers and emails;
  - file and SQLite I/O, and the command line.
- **The NetworkX analytics of `validate_graph_consistency`** are not modelled: connected components, degrees, isolates and bridges. Only the node and edge sets are modelled, plus the `shortest_path_length` bound of `get_related_policies`.
- **Edge attributes** (`interaction_type`, `reasoning`, `scenarios`) live on the interaction log, not on the edge set. Re-adding an edge overwrites NetworkX's attributes, and that is not modelled.
- **Floating point:**
  - `item_value` and `months_since_purchase` are `real`, so rounding is not modelled;
  - `confidence` in an interaction is not modelled;
  - `value` in an action is `Option<real>`.
- **The warranty-claim rewrite** (factory_policy_before_graph.py:1541-1546) is not modelled. Its reason string formats a float with `:.1f`.
- **The random shuffle** of utils/policy_dilution_script.py:210-212 is not modelled. `InsertSectionsStrategically` takes the sections already in their shuffled order.
- **Reading the policy file and the irrelevant-section catalogue** is not modelled.
- **Dilution.InsertSectionsStrategically: sections are values**, each a title and a content. The model does not read them from dictionaries with `section["title"]`, so a missing key is not modelled.
- **Engine.PolicyGraph.GetRelatedPolicies: the order among clauses at the same hop distance** is not stated. The contract states membership, no duplicates and the nearest-first order. The adjacency-list order inside one level is only implied by `Explore`'s loop.
- **Engine.PolicyGraph.GetRelatedPolicies and Discovered.PolicyGraph.GetRelatedPolicies: the default `max_hops = 3`** (factory_3.py:92, factory_policy_before_graph.py:116) is not modelled. `max_hops` is always a parameter; every caller in the code passes it explicitly (factory_policy_before_graph.py:1175, 1704).
- **Pipeline.Action: actions are records with a `kind`, a `reason` and a `value`.** An action dictionary without a `type` key would raise `KeyError` at factory_policy_before_graph.py:1532; the model's `kind` is always present. The dictionary's other keys are not represented.
- **Aliasing:** Python clause objects are shared between the dictionary and any caller that keeps a reference. The model holds clauses as values, so a caller mutating a clause behind the graph's back is not modelled.
- **Pipeline.Resolution.Validate: `customer_lookup`** is modelled only as the presence or absence of its `customer_id`. The dictionary's other fields are not modelled.
- **Pipeline.SelectPrimaryPolicy: an empty template category.** When the primary id names none of the five families, the template category is `""`. The loop then matches a clause whose category is `""`, as the code does; the model does the same and does not single this case out.
- **Pipeline.SelectPrimaryPolicy: the rest of `select_and_customize_scenario_v2`** is not modelled: `build_order_context` and the template customisation.
- **The accompanying files** `factory.py`, `factory_2.py`, `audit_tickets.py`, `convert_to_sqlite.py`, `improved_templates.py`, `update_scenario_improvements.py` and `validate_templates.py` are not part of this model.
