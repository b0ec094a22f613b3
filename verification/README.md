# Keyholders, verified

Keyholders tells which accounts could have run their code in a project, and when, over a graph whose
edges carry half-open validity intervals. This project models the computations behind that answer in
Dafny and proves what they promise. One module models one component:

- `Intervals`, `Snapshot`, `IntervalSearch`, `Expander`, `TwoPass`: the interval-constrained search.
  The central result is that, at every instant, the pruned search over (node, span) entries is plain
  depth-bounded reachability in that instant's snapshot of the graph, and that replaying a cache
  filled by an interval-blind pass gives the same answer as searching the whole graph.
- `Packages`, `Roster`, `Duality`, `Cut`, `Audit`, `Proof`: what the search is for. The keyholder
  roster, the inward search that is its mirror image, removal analysis as dominance, all of an audit
  together, and proof paths.
- `Text`, `Decimal`, `Semver`, `VersionText`, `SemverRange`, `RangeText`: SemVer precedence, ranges, and
  the operands and tokens they are written in.
- `Timeline`, `ResolutionWindows`, `Exposure`: the sweep that replaces "resolve at instant t" by a
  list of windows, its agreement with point resolution, and the question of who locked a compromised
  version while it was live.
- `Reachers`, `Sketch`, `Propagation`, `Convergence`, `HyperLogLog`: the chunked fixpoint over
  semilattice sketches, its one stopping round, and when that is at the closure.
- `GraphWrites`, `Durability`, `Checkpoint`, `Ingest`, `Fetch`, `Resolver`, `ResolutionPass`: the
  crash-safe loaders.
  While a connection or a file is not healthy, stopping after any row, acknowledgement or checkpoint
  line is a nondeterministic choice, as are partial writes before a retry; the order results arrive in
  always is. While they are healthy nothing fails, so that what an undisturbed run does is a theorem
  too.
- `EditDistance`, `EventStream`, `StandardStream`, `Spells`, `Advisory`, `SortChoice`: edit distance by
  rolling rows, event stream framing and how a standard reader would take it, holding spells from
  observations, OSV range evaluation and what an unstable sort leaves open in it.
- `Sorting`, `Wrappers`: `sort.Slice` by contract, so that callers see only that some arrangement comes
  back, sorted if the comparison is an order, and an option type.

Where the source changes state step by step, so does the model: loops are methods with invariants,
objects are classes, the window list is clamped in place in an array. Go's map iteration order is an
arbitrary choice everywhere. `dafny verify dfyconfig.toml` checks the project.

## Where the code and an obvious claim part ways

Each of these is proved, and where the claim holds on a condition, so is the condition.

- An untruncated result says nothing about coexistence (`TwoPass.TruncationSaysNothingOfCoexistence`);
  the exact condition is `TwoPass.CompleteIffNothingOneDeeper`, and an emptied frontier is enough
  (`TwoPass.EmptiedIsComplete`).
- A node with more edges than one call returns is read short without an error. The search is then exact
  over the graph as read, which is the whole graph exactly when every node expanded fits
  (`TwoPass.SawAllIffFits`); otherwise it only loses (`TwoPass.NothingInvented`), and a proof chain, which
  the database finds in the whole graph, is known to be evidence of it only in the former case
  (`Audit.AuditedChainsAreEvidence`).
- A merged span is not the width of any one path (`IntervalSearch.SpansAreNotPathWidths`). A proof
  chain is looked for without the window asked about, so its span need not share an instant with it
  (`Proof.ShortestChainMissesWindow`); it lies within the instants the search found exactly when it lies
  inside the window (`Proof.SpanIsHeldIffInside`).
- Two spellings of one number, which `Parse` lets through as prerelease identifiers, break the order
  (`Semver.LeadingZeroesBreakTheOrder`): it is transitive over given identifiers exactly when they hold
  no such pair (`Semver.PreorderIffOneSpelling`). The exact condition for section 11 is
  `Semver.CompareRealisesSection11`, and section 9 implies both. What survives in any case is
  `Semver.CompareStep`, which is all that picking a highest version needs.
- The bounds of caret, tilde and partial ranges wrap at the top of uint64; `SemverRange.CaretAdmits`,
  `SemverRange.TildeAdmits`, `SemverRange.BoundAdmits` and `SemverRange.HyphenAdmits` give the exact
  conditions. A hyphen range up to a prerelease shuts that prerelease's release out
  (`SemverRange.HyphenToPrereleaseAdmits`).
- A wildcard major behind an operator is major 0, so such a token means any version exactly when the
  operator is >= (`RangeText.WildcardUnderToken`), and "x.x" never does (`RangeText.BareWildcard`).
- The inward search cuts its seeds to the window before the search turns an absent window into all
  time, so with no window given it finds nothing (`Duality.ZeroWindowFindsNothing`), where the audit
  spans all time; the two agree on one set of options exactly as `Duality.OneQuestionAskedTwice` says.
- Two samples at one instant can give an empty spell (`Spells.EmptySpellIffTie`), and the ingest takes
  such samples exactly when a release fell on an epoch and another sampled one within the second after
  it (`Fetch.SampledHistoryIsChronological`), which can happen (`Fetch.BoundaryPublishTies`).
- An event with a line break or no data does not survive the stream
  (`EventStream.RoundTripIffCarriable`). The framing is not that of section 9.2.5 of the WHATWG HTML
  standard either: the two readings of what the printer writes agree exactly when no event has a
  carriage return or an empty name (`StandardStream.ReadersAgreeIff`), and differ on empty data
  (`StandardStream.EmptyDataIsDelivered`).
- Counts that stop moving do not mean that sketches have: the registers at the stop are those of the
  closure exactly when one round more would change none (`Convergence.ClosureIffNothingChanges`).
  What the count decides, it decides alike for every number of workers (`Convergence.EpochIsUnique`).
- "0" in an OSV range is 0.0.0, above its own prereleases (`Advisory.ZeroIsNotTheBeginning`), and
  stopping at the first later boundary can miss one when a number is spelled in two ways
  (`Advisory.StoppingEarlyMisses`); the exact condition is `Advisory.StoppingIsSafeIff`. Boundaries of
  one precedence may be sorted either way: `SortChoice.VerdictIsPossibleIff` says exactly which verdicts
  that allows, and `SortChoice.SortChoiceMattersIff` when it allows both if ties are at one version.
- The comment on `dedupe` says repeated rows are identical. Within one package they need not be: of two
  direct dependencies of one version on one target with different ranges the second is lost
  (`Fetch.SecondRangeIsLost`), and every declared range reaches the graph exactly when there are no two
  such (`Fetch.DeclarationsReachGraphIff`). The graph is still unique, because a package's rows always
  travel in one batch and the first is kept; `Ingest.ScriptsAgree` and `Ingest.BatchRows` are stated
  without assuming the rows identical.

## Model

| member | source | states |
|---|---|---|
| Intervals.Covers | internal/query/interval.go:51-73 | answers yes exactly when every instant of the span is in the set: the one left-to-right walk decides instant-wise inclusion |
| Intervals.Insert | internal/query/interval.go:77-94 | the result covers exactly the old instants and the new span's, `added` is true exactly when some instant was new, and sortedness with strict gaps is kept |
| Intervals.CanonicalIsUnique | internal/query/interval.go:41-44 | two sets in the kept form that cover the same instants are the same list |
| Intervals.OrderDoesNotMatter | internal/query/interval.go:75-94 | inserting the same spans in any order gives the same set |
| Intervals.MergeAll | internal/query/interval.go:75-94 | inserting a list of spans one by one covers the union of their instants and stays canonical |
| Intervals.Width | internal/query/interval.go:97-103 | the sum of member widths is the number of covered instants, each counted once |
| Intervals.Earliest | internal/query/interval.go:107-112 | the least covered instant, and 0 only when there is none to give |
| Snapshot.Saturated | internal/query/reach.go:202-202 | once a level meets nothing new at an instant, no deeper one does |
| IntervalSearch.Levels | internal/query/reach.go:205-230 | the loop keeps exact reachability per depth until the frontier empties or the bound is met |
| IntervalSearch.Follow | internal/query/reach.go:208-225 | following one entry's edges adds exactly the unblocked ends reached at instants common to the entry and the edge |
| IntervalSearch.Arrive | internal/query/reach.go:218-223 | an arrival enters the next frontier exactly when it adds some instant not yet held |
| IntervalSearch.AllFollowed | internal/query/reach.go:205-226 | with every frontier entry followed, everything reached one level deeper is held and nothing else |
| Snapshot.LayersAreWalks | internal/query/reach.go:202-229 | within one instant, reaching a node in at most d layers is the existence of an unblocked walk of at most d live edges from a source |
| IntervalSearch.Seed | internal/query/reach.go:181-199 | the seeded frontier and sets hold exactly the unblocked sources during their span within the window |
| IntervalSearch.Advance | internal/query/reach.go:205-230 | one level of the loop takes exact depth-d reachability at every instant to exact depth-(d+1) reachability, pruning what is already covered |
| IntervalSearch.Replay | internal/query/reach.go:178-231 | for every node and every instant, the returned set contains the instant exactly when the snapshot graph of that instant reaches the node within the depth bound; a returned node has a nonempty set; the frontiers reported are exactly the new arrivals per depth |
| IntervalSearch.HeldIffWalk | internal/query/reach.go:178-231 | what the search holds is exactly what an unblocked walk of at most MaxDepth edges, all valid at that instant, reaches |
| IntervalSearch.EmptyWavefront | internal/query/reach.go:202-202 | stopping early on an empty frontier loses nothing: no greater depth reaches anything more |
| IntervalSearch.SpansAreNotPathWidths | internal/query/interval.go:41-50 | two overlapping edges make a reached span that no single path spans, so a merged span is not a path width |
| Expander.GraphExpander.Out | internal/query/expander.go:64-75 | chunked and split reads return nothing but edges leaving the given nodes, every edge of a node within the row limit, with its multiplicity, and of any other node not all |
| Expander.GraphExpander.MSpaths | internal/query/expander.go:51-56 | the procedure returns all rows when they fit and some limit of them otherwise, with nothing to tell the cases apart |
| Expander.GraphExpander.ExpandHalves | internal/query/expander.go:116-127 | two halves read separately serve the whole in that sense |
| Expander.ServesConcat | internal/query/expander.go:116-127 | joined answers read short exactly the nodes that either reads short |
| Expander.GraphExpander.Expand | internal/query/expander.go:78-142 | names that fit no pattern are left out of the query, and a full answer is split in halves until it is known whole or is one node's |
| Expander.OneCallServes | internal/query/expander.go:102-116 | an answer below the limit is complete, and a full answer for one node is complete exactly when its degree is the limit |
| Expander.ServesWholeIffFits | internal/query/expander.go:44-46 | a read is complete exactly when no node in it has more edges than the limit |
| Expander.ReadingTheNamed | internal/query/expander.go:79-87 | asking for the names that fit the pattern is reading every name from the part of the graph whose names do |
| TwoPass.UnionPass | internal/query/reach.go:132-166 | without intervals, over the graph as it was read: the union is exactly the nodes within the bound, the cache holds every edge leaving a node expanded, once, and truncation is set exactly when the last level met something new |
| TwoPass.LevelPassed | internal/query/reach.go:142-160 | one more level keeps all of that, however short its nodes are read |
| TwoPass.SameNearby | internal/query/reach.go:142-160 | what is within d edges depends on the edges of nodes met before and on no others, so reading a node short changes nothing already found |
| TwoPass.SawAllIffFits | internal/query/expander.go:44-46 | the graph as read is the whole graph exactly when every node expanded fits one call |
| TwoPass.NothingInvented | internal/query/reach.go:95-99 | short reads only lose: whatever is reported, the whole graph reaches too |
| TwoPass.Roots | internal/query/reach.go:133-139 | the first frontier is the distinct sources, and they alone are in the union |
| TwoPass.Absorb | internal/query/reach.go:152-160 | every edge read is filed once under its source, and the next frontier is the distinct ends not met before |
| TwoPass.LevelCached | internal/query/reach.go:142-160 | after a level the cache holds exactly the edges of nodes met before it |
| TwoPass.LevelReached | internal/query/reach.go:142-160 | and the union is exactly the nodes one step further |
| TwoPass.KeysWithinUnion | internal/query/reach.go:232-243 | whatever coexists is in the union, so the overcount is a difference of sizes |
| TwoPass.CoversInstant | internal/query/reach.go:246-257 | scanning the spans finds an instant exactly when one holds it |
| TwoPass.Reach | internal/query/reach.go:100-129 | both passes together: coexistence over the whole graph as read, not just the cache, at every instant within the bound; coexistence within the union; truncated exactly when some node is first met at the bound; complete at any depth when the frontier emptied by the bound |
| TwoPass.EachExpandedOnce | internal/query/reach.go:142-160 | one level reads the edges of each frontier node exactly once and of no other node |
| TwoPass.CacheSuffices | internal/query/reach.go:95-99 | the cached edges reach exactly what all the edges reach, at every instant, for every window and blocked set, up to the bound |
| TwoPass.CachedReplay | internal/query/reach.go:116-117 | so a replay over the cache is the search over the whole graph |
| TwoPass.BlindReachesMore | internal/query/reach.go:95-99 | whatever coexists within d hops at some instant is in the union within d hops |
| TwoPass.SameLayerSameAnswer | internal/query/reach.go:178-231 | the answer is one value, whatever the order of sources, frontier entries or cached edges |
| TwoPass.NotTruncatedIsClosure | internal/query/reach.go:163-164 | an untruncated union is the full closure, at any depth |
| TwoPass.CompleteIffNothingOneDeeper | internal/query/reach.go:202-202 | the depth-bounded coexistence answer is the unbounded one exactly when one more level would meet nothing at any instant |
| TwoPass.EmptiedIsComplete | internal/query/reach.go:202-202 | a search of the cache whose frontier empties by the bound has found all there is in the whole graph, at every instant |
| TwoPass.TruncationSaysNothingOfCoexistence | internal/query/reach.go:163-164 | a graph whose union is untruncated at depth 2 while a node is first reached at instant 0 at depth 3 |
| TwoPass.PhantomReach | internal/query/reach.go:235-243 | the difference in size of union and coexistence, zero exactly when they are equal |
| TwoPass.ReachedAt | internal/query/reach.go:246-257 | the nodes reached at an instant, each once |
| Packages.PackageOfVersionUrn | internal/query/audit.go:366-372 | cutting a version name at its last @ gives back the package exactly when the version part has none |
| Roster.Coexisting | internal/query/audit.go:216-228 | per package, the union over its reached versions of when they were reached |
| Roster.AddHeld | internal/query/audit.go:262-271 | adds exactly the instants a tenure shares with the spans its package was reached, and says whether there was any |
| Roster.Scan | internal/query/audit.go:240-284 | one pass over the tenures of the union's packages: an account holds a package at an instant exactly when a tenure contains it and a version was reached then; who ever held each package; the start of each account's earliest tenure that counts; everyone the union names |
| Roster.CountHolders | internal/query/audit.go:301-307 | for every reached package, also one nobody holds, how many accounts ever held it |
| Roster.RowPerHandle | internal/query/audit.go:286-289 | one row per account, whatever order the map gives |
| Roster.Keyholders | internal/query/audit.go:215-309 | one keyholder per account that held anything at some instant and no other, with exact spans and the start of its earliest tenure that counts, widest first and then by handle; the number of holders per reached package; the number of accounts the union names |
| Roster.PhantomKeyholders | internal/query/audit.go:64-66 | the union's count less the roster's is the number of accounts whose rights never met a reach |
| Roster.Holdings | internal/query/who.go:129-162 | an account's tenures merged per package cover exactly the instants of those tenures, gaps kept |
| Roster.SeedVersion | internal/query/who.go:193-206 | one version's seeds: its existence cut by each spell and the window, empties dropped |
| Roster.SeedPackage | internal/query/who.go:189-207 | the same for all versions of a package |
| Roster.VersionSources | internal/query/who.go:174-217 | the seeds are each version of a held package, at exactly the instants it existed, was held and fell in the window |
| Roster.KnownVersions | internal/query/audit.go:157-201 | the audit starts from the pins on pattern that the graph knows, each from its publish on |
| Duality.AuditAndWhoAreDual | internal/query/who.go:52-119 | when no edge is valid before either end was published: an account is a keyholder of the audit of some pins at an instant exactly when the inward search from the account's packages reaches one of them then, under the same window and bound |
| Duality.OneQuestionAskedTwice | internal/query/who.go:188-210 | with one set of options on both sides, the two agree for every version and instant if and only if the window given is not the zero one or the account never held an existing version of anything |
| Duality.SeedsCutAlikeIff | internal/query/who.go:200-203 | cutting the seeds to the window as given is cutting them to the window as searched under exactly that condition |
| Duality.ResolvedEdgesAreTimely | internal/resolve/resolve.go:200-256 | edges made by resolving any number of packages are never valid before either end was published, which is what the duality needs |
| Duality.ReadWholeIsReversed | internal/query/who.go:77-81 | read whole, the inward expander searches the dependency graph turned round |
| Duality.FlippedWalk | internal/query/who.go:75-97 | reversing a walk gives a walk of the reversed graph, of the same length, at the same instant |
| Duality.SeededIffHeld | internal/query/who.go:188-210 | an existing version is a seed at an instant exactly when the account held its package then |
| Duality.Dependents | internal/query/who.go:91-109 | the packages of the versions met that are not the account's own |
| Duality.HoldingRows | internal/query/who.go:155-162 | one row per package held, by name, with its spans and its number of versions |
| Duality.WhoIs | internal/query/who.go:52-119 | refuses a handle off pattern; otherwise the holdings, the inward reach from exactly the seeds over the graph as read, the reached packages that are not the account's own in order, and how many there are without regard to instants |
| Duality.ZeroWindowFindsNothing | internal/query/who.go:188-210 | the seeds are cut to the window before the search reads a zero window as always, so a question without a window finds nothing |
| Cut.CutIsDominance | internal/query/cut.go:44-98 | a reached version is lost exactly when every bounded common-instant walk to it meets a version of a held package |
| Cut.HeldIsLost | internal/query/cut.go:56-71 | what the account publishes itself is always lost |
| Cut.LossSplits | internal/query/cut.go:76-88 | lost packages are the held reached ones plus those beyond |
| Cut.HoldingMoreLosesMore | internal/query/cut.go:44-98 | an account holding more packages never costs fewer versions or packages |
| Cut.VersionsByPackage | internal/query/cut.go:47-52 | each reached version is listed under its package and nowhere else |
| Cut.CountLost | internal/query/cut.go:76-86 | the packages gone, those of them not held, and the latter sorted |
| Cut.ReplayWithout | internal/query/cut.go:68-69 | replaying the cache without the blocked versions leaves exactly what is not dominated |
| Cut.Removals | internal/query/cut.go:56-88 | rows in roster order, one for each keyholder with anything to block |
| Cut.Blocked | internal/query/cut.go:58-66 | the blocked set is exactly the reached versions of the held packages |
| Cut.Remove | internal/query/cut.go:56-93 | one row: counts of blocked and lost versions, lost packages and those beyond, sorted; none when nothing is blocked |
| Cut.Cuts | internal/query/cut.go:44-98 | exactly one row per keyholder with anything to block, each with that keyholder's dominance counts, in the stated order |
| Cut.ReachedPackages | internal/query/cut.go:100-108 | the packages of the reached versions |
| Audit.Audit | internal/query/audit.go:94-136 | from the pins to the removal rows, over the graph as read: sources exactly the known pins on pattern while they existed, the exact search from them, one keyholder per account that ever held a key, the number of accounts the union names, and one dominance row per keyholder with anything to remove, whatever the ranking |
| Audit.Report | internal/query/audit.go:111-135 | a finished search meets what the roster and the removal analysis need |
| Audit.RankedAreKeyholders | internal/query/audit.go:133-133 | ranking by whatever scores keeps the roster what it is |
| Audit.LockedAreAsked | internal/query/audit.go:157-201 | chains from what was locked meet the condition under which the window decides what they are evidence of |
| Audit.AuditedChainsAreEvidence | internal/query/proof.go:73-85 | the path procedure reads the graph itself: where no node the search expanded was read short, the chain it gives is evidence of what the search holds |
| Proof.CoexistenceChain | internal/query/proof.go:187-207 | a path becomes a chain exactly when its edges share an instant, and the chain's span is exactly those instants |
| Proof.ShortestOf | internal/query/proof.go:87-104 | with one more answer, still the first of the shortest coexisting paths seen |
| Proof.ChainIsWalk | internal/query/proof.go:187-207 | a connected path is a walk at an instant exactly when every edge holds then |
| Proof.ProofPath | internal/query/proof.go:53-109 | refuses a target off pattern; otherwise the first of the shortest coexisting paths among all answers to chunks of the sources on pattern, and none only when none coexists |
| Proof.ChainProvesReach | internal/query/proof.go:17-27 | at an instant its first node is a source, a chain's span contains the instant exactly when the chain is a walk there, and then the search reaches the target within its length |
| Proof.ChainIsHeld | internal/query/proof.go:17-27 | so a search as deep as the chain is long holds the target then |
| Proof.ChainHeldIffInWindow | internal/query/proof.go:17-27 | over edges no older than their ends and a source locked throughout its existence: at an instant of a chain's span the search holds the target if and only if the window asked about has that instant |
| Proof.SpanIsHeldIffInside | internal/query/proof.go:17-27 | so a chain's span lies within the instants the search holds its target if and only if it lies inside the window |
| Proof.ShortestChainMissesWindow | cmd/keyholders/path.go:72-81 | asked about one instant, the chain returned may be from another time altogether: the target is held then and at no instant of the shortest chain's span |
| Proof.ProofPathIsEvidence | internal/query/proof.go:41-53 | when the procedure returns only paths from the sources asked about to the target, the chain starts at a source; where that is locked within its span the search holds the target; and over what an audit asks, at exactly those of its instants that the window has |
| Semver.CompareRealisesSection11 | internal/semver/version.go:88-133 | for identifiers within 64 bits, the comparison is section 11 of SemVer 2.0.0 exactly when equal numbers in different numerals do not end it early |
| Semver.ListsRealiseSection11 | internal/semver/version.go:104-133 | the same for prerelease lists alone |
| Semver.Section9NeverStopsEarly | internal/semver/version.go:117-121 | without leading zeroes (section 9) it never ends early |
| Semver.CompareAntisymmetric | internal/semver/version.go:88-99 | swapping the operands negates the answer, for all versions |
| Semver.CompareTransitive | internal/semver/version.go:88-99 | over identifiers that spell no number in two ways the comparison is transitive, ties included |
| Semver.PreorderIffOneSpelling | internal/semver/version.go:88-99 | for any set of identifiers, the comparison of the versions made of them is transitive if and only if no two are numerals of one value |
| Semver.Section9IsOneSpelling | internal/semver/version.go:117-121 | identifiers that keep to section 9 are such a set |
| Semver.CompareStep | internal/semver/version.go:88-99 | without it too, a comparison followed or preceded by a strict one carries over |
| Semver.ComparesEqualToItself | internal/semver/version.go:88-99 | every version compares equal to itself |
| Semver.BetweenIffOvertakes | internal/semver/version.go:104-133 | of a version and one that is no lower, some third comes before the first and not before the second exactly when their lists tie on a number spelled in two ways and the first goes on |
| Semver.CompareZero | internal/semver/version.go:88-99 | over such identifiers, equal precedence means equal but for build metadata |
| Semver.LeadingZeroesBreakTheOrder | internal/semver/version.go:117-121 | any two numerals of one value make three versions that compare equal, equal and greater |
| Semver.ComparePreLoop | internal/semver/version.go:104-133 | the loop over identifiers agrees with the recursive comparison the order laws are about |
| VersionText.ParseUndoesWritten | internal/semver/version.go:29-68 | parsing what a well-formed version prints gives it back, all fields |
| VersionText.ParsedIdentifiers | internal/semver/version.go:42-55 | no parsed prerelease identifier is empty or holds a dot |
| Decimal.SameValueSameNumeral | internal/semver/version.go:71-83 | numerals without leading zeroes are determined by their value |
| SemverRange.ZeroPreIsInfimum | internal/semver/range.go:312-315 | a version is below the -0 bound exactly when its release triple is: the bound is the infimum of everything at that triple |
| SemverRange.CaretAdmits | internal/semver/range.go:265-282 | caret admits exactly the releases from its operand up that keep the leftmost nonzero part, for every release, exactly when the bound does not wrap at the top of uint64 |
| SemverRange.TildeAdmits | internal/semver/range.go:247-260 | tilde admits exactly the releases from its operand up within its minor (or major), exactly when the bound does not wrap |
| SemverRange.BoundAdmits | internal/semver/range.go:201-223 | a comparison with a partial operand is, for every release, that comparison on the given parts alone, exactly when its bound does not wrap |
| SemverRange.HyphenAdmits | internal/semver/range.go:284-304 | a hyphen range admits exactly the releases between its partial ends, both included, if and only if its upper bound does not wrap, or nothing lies between, and its upper end is no prerelease of a release between them |
| SemverRange.HyphenToPrereleaseAdmits | internal/semver/range.go:296-297 | up to a prerelease, it admits exactly the releases from the lower end to below the upper end's triple |
| SemverRange.PrereleasesAdmitted | internal/semver/range.go:331-349 | caret and tilde admit a prerelease only at the triple of a prerelease operand, from it up, and none when their bound wraps; a whole operand standing bare admits only its equals |
| SemverRange.PrereleasesUnderBound | internal/semver/range.go:201-223 | an inequality admits a prerelease only at the triple of a prerelease operand and as it says; on a partial operand > and <= admit none |
| SemverRange.PrereleasesInHyphen | internal/semver/range.go:284-304 | a hyphen range admits a prerelease exactly at the triple of an end that is one, between the ends |
| SemverRange.NeverThroughUpperBound | internal/semver/range.go:331-349 | in any comparator set, a prerelease is admitted only thanks to a comparator at its own triple that is not a desugared bound |
| RangeText.WildcardMajorIsZero | internal/semver/range.go:123-164 | any operand whose first segment is a wildcard reads, if it has at most three, as 0 with nothing further given but a prerelease |
| SemverRange.WildcardUnderOperator | internal/semver/range.go:201-282 | with that operand an inequality admits every release exactly when it is >=, and caret, tilde and equality never do |
| RangeText.WildcardUnderToken | internal/semver/range.go:172-197 | so a token of an operator and a wildcard, however the wildcard is written and with or without a prerelease, means any version exactly when the operator is >= |
| RangeText.BareWildcard | internal/semver/range.go:173-175 | and without an operator exactly when it is a single wildcard |
| SemverRange.SetSatisfiesLoop | internal/semver/range.go:331-349 | the loop over comparators answers whether all admit the version and a prerelease has a prerelease comparator at its triple |
| RangeText.ParsePartialUndoesText | internal/semver/range.go:123-164 | parsing what a partial operand prints gives it back: components, which of them are given, and prerelease |
| SemverRange.SatisfiesLoop | internal/semver/range.go:322-329 | the loop over sets answers whether some set admits the version |
| SemverRange.MaxSatisfying | internal/semver/range.go:369-381 | finds a version exactly when one satisfies, and then a satisfying one that none exceeds |
| Timeline.SweptNamesHighest | internal/resolve/windows.go:76-89 | at every instant the window covering it names the highest candidate published by then, and none covers it only before the first |
| Timeline.SweptTiles | internal/resolve/windows.go:76-98 | swept and clamped windows leave no gap and no overlap |
| Timeline.Append | internal/resolve/windows.go:86-87 | in place: the last window is closed where the new one opens, and the rest stay |
| Timeline.Sweep | internal/resolve/windows.go:63-89 | one pass over releases in publish order leaves contiguous windows that each name the highest release out by then |
| Timeline.Clamp | internal/resolve/windows.go:99-119 | in place: drops windows over by the declaration and starts the straddling one there, leaving the rest of the array alone |
| Timeline.ClampKeepsAnswers | internal/resolve/windows.go:93-98 | clamping changes no answer from the declaration on |
| ResolutionWindows.Admit | internal/resolve/windows.go:50-62 | the candidates are exactly the dated releases that parse and satisfy the range |
| ResolutionWindows.PointResolveLoop | internal/resolve/equivalence_test.go:20-37 | the scan in a loop is the definition the windows are held to |
| ResolutionWindows.PrecedenceTiesCarry | internal/resolve/windows.go:69-74 | the sort's comparison can be sorted by when precedence orders the releases of each publish second |
| ResolutionWindows.Section9SecondsSort | internal/resolve/windows.go:69-74 | it does when releases that share a second keep to section 9 |
| ResolutionWindows.PairsSecondsSort | internal/resolve/windows.go:69-74 | and when no more than two share one, however they are spelled |
| ResolutionWindows.SweptAnswers | internal/resolve/windows.go:69-98 | any arrangement of the candidates in publish order, whatever the order within a second, sweeps to windows that answer every instant from the declaration on |
| ResolutionWindows.PrecedenceClimbs | internal/resolve/windows.go:76-89 | a highest so far stays above all when something higher replaces it, leading zeroes or not |
| ResolutionWindows.PointResolveIsMaximal | internal/resolve/equivalence_test.go:20-37 | for all releases, leading zeroes or not, the scan picks an admitted release out by the instant that none such exceeds, or nothing when there is none |
| ResolutionWindows.Windows | internal/resolve/windows.go:43-91 | versions step up from window to window; and where precedence orders the releases of each publish second, at every instant from the declaration to the open end a window covers it exactly when an admitted release was out, and names one of highest precedence, windows being nonempty, contiguous and open only at the last |
| Exposure.WindowsAgreeWithPointResolution | internal/resolve/windows.go:43-91 | windows and the scan agree at every instant up to precedence, and to the very string when no two releases share a precedence |
| Exposure.ResolveOne | internal/resolve/resolve.go:223-248 | one declaration's edges: no two share both ends; and where the sort is one, they mean, in both directions and up to precedence, what the scan would pick while the dependent was out, and the very release where precedence tells releases apart, both ends being published throughout |
| Exposure.StepsUpNamesOnce | internal/resolve/resolve.go:24-26 | windows that step up in precedence name each release once, so an edge id of its two ends is enough |
| Exposure.ResolveTarget | internal/resolve/resolve.go:200-256 | the same for every declaration on the package together, no two rows being of one edge if no dependent declares it twice |
| ResolutionPass.ResolvedAreResolvable | internal/resolve/resolve.go:224-246 | rows made of resolved packages are what the pass needs to write: the versions at both ends of every window are in the graph, and no two rows are of one edge |
| Exposure.LiveLocks | internal/incident/resolved_while_live.go:60-72 | appends, in order, one report for each lock inside one edge's span |
| Exposure.WindowAtIsTheOneCovering | internal/resolve/windows.go:43-91 | at most one of contiguous windows covers an instant, and it is the one found |
| Exposure.ResolvedWhileLive | internal/incident/resolved_while_live.go:50-76 | one report for each edge into the compromised version and lock of its dependent inside the edge's span, in the order of edges and then of locks |
| Exposure.ReportedIffEdge | internal/incident/resolved_while_live.go:50-76 | a project is reported through a dependent at an instant exactly when it locked that dependent then and an edge from it to the compromised version covers the instant |
| Exposure.ReportedIffPicked | internal/incident/resolved_while_live.go:50-76 | end to end: reported exactly when the project locked the dependent at an instant when the dependent was out and point resolution picked the compromised version |
| Exposure.ReportedMeansAlike | internal/incident/resolved_while_live.go:50-76 | with releases of equal precedence about, a report still means an install would have picked one of the compromised version's precedence |
| Sketch.SketchOfUnion | internal/sketch/sketch.go:32-40 | the sketch of a union is the join of the sketches, for any semilattice, in any order |
| Sketch.ExactSet.Merge | internal/sketch/exact.go:16-21 | taking the other's members over one by one, in any order and even from itself, is the join that the propagation over exact sets is about; the other keeps its own |
| Reachers.RoundsSuffice | internal/sketch/sketch.go:106-139 | after as many rounds as nodes, another changes no node's set of reachers |
| Reachers.StableIsComplete | internal/sketch/sketch.go:131-136 | a round that changes no set means every set is the full closure |
| Propagation.SplitEdges | internal/sketch/sketch.go:160-178 | the chunks are the edges, in order, cut into at most as many pieces as workers |
| Propagation.Slices | internal/sketch/sketch.go:168-177 | slices in order, each of the same size but the last, which is no larger and not empty |
| Propagation.ColdStart | internal/sketch/sketch.go:87-102 | every node given and every end of an edge, however often it occurs, has one object of its own holding the sketch of itself alone |
| Propagation.Seed | internal/sketch/sketch.go:119-124 | each round starts each node again from the sketch of itself alone, in a new object |
| Propagation.MergeInto | internal/sketch/sketch.go:148-153 | a source's members are added to one target's sketch, made on first need, and to no other |
| Propagation.Shares | internal/sketch/sketch.go:107-117 | each worker's map is its chunk's share, in objects shared with no other |
| Propagation.MergeChunk | internal/sketch/sketch.go:145-156 | a worker's local map holds, for exactly the targets of its chunk, the sketch of what flows in, in fresh objects that share nothing with the input |
| Propagation.FoldPart | internal/sketch/sketch.go:119-130 | folding one worker's map in adds its members to each node, in any order of keys |
| Propagation.FoldAll | internal/sketch/sketch.go:112-130 | all chunks folded: each node has itself and everything its predecessors had |
| Propagation.Round | internal/sketch/sketch.go:106-139 | one round takes the sketch of reachers within k edges to that within k+1, for every node |
| Propagation.AnyCountMoved | internal/sketch/sketch.go:131-136 | reports a change exactly when some node's count differs |
| Propagation.RoundAndCompare | internal/sketch/sketch.go:106-138 | one round, and whether it moved some count; one that did has not used up the rounds |
| Propagation.OneStop | internal/sketch/sketch.go:106-138 | there is only one first round that moves no count |
| Propagation.Propagate | internal/sketch/sketch.go:106-139 | the loop ends at the first round that moves no count, within max(1, nodes) rounds |
| Propagation.LayerStep | internal/sketch/sketch.go:119-129 | what reaches a node within k+1 edges is itself and what reaches its predecessors within k |
| Propagation.ExactSketchIsTheSet | internal/sketch/exact.go:12-23 | an exact sketch of members is the set of them |
| Propagation.RunEpoch | internal/sketch/sketch.go:86-140 | for any semilattice, worker count and chunking: stops at the first round that moves no count, within max(1, nodes) rounds, with each node the sketch of what reaches it in that many edges, in objects of its own |
| Propagation.RunEpochExactly | internal/sketch/sketch.go:86-140 | over exact sets the result at each node is exactly the nodes that reach it by any path |
| Propagation.ExactFixpoint | internal/sketch/exact.go:23-23 | unchanged sizes of growing exact sets are unchanged sets, so the stop is at the fixpoint |
| Propagation.FewerMembersSketchBelow | internal/sketch/sketch.go:6-8 | fewer members never give a higher sketch |
| Convergence.EpochIsUnique | internal/sketch/sketch_test.go:51-59 | two runs over the same nodes and edges leave the same sketches, whatever their workers, for any kind of sketch and any count; the order of nodes and edges and repeats among them do not matter either |
| Convergence.ClosureIffNothingChanges | internal/sketch/sketch.go:131-138 | after any number of rounds the sketches are those of everything that reaches each node if and only if one round more would change no sketch |
| Convergence.NothingMoreChanges | internal/sketch/sketch.go:131-138 | a round that changes no sketch is followed by none that does |
| HyperLogLog.HllIsSemilattice | internal/sketch/hll.go:72-82 | register-wise maximum is idempotent, commutative and associative with the empty registers |
| HyperLogLog.RegisterIsHighestRank | internal/sketch/hll.go:26-33 | each register is the highest rank among the members whose hash indexes it, and 0 when none does |
| HyperLogLog.HLL.Add | internal/sketch/hll.go:26-33 | adding raises one register, the hash's, to at least the hash's rank |
| HyperLogLog.HLL.Merge | internal/sketch/hll.go:72-82 | in place register-wise maximum at equal precision, also with itself; refused and unchanged otherwise; the other is untouched |
| HyperLogLog.RunEpochSketched | internal/sketch/sketch.go:86-140 | whatever the estimate, a run ends at the first round that moves no estimate, within max(1, nodes) rounds, with each node the registers of exactly what reaches it in that many edges, none above the closure's |
| HyperLogLog.RunWithOtherWorkers | internal/sketch/sketch_test.go:59-84 | run again with any other number of workers, it leaves the very same registers |
| HyperLogLog.NeverAboveClosure | internal/sketch/sketch.go:131-136 | stopping early can only leave registers low, never high |
| HyperLogLog.IndexInRange | internal/sketch/hll.go:26-33 | the top bits always name a register that exists |
| GraphWrites.LandsIffFound | internal/ingest/rows.go:15-76 | an UNWIND row is in the graph afterwards exactly when its endpoints were, or it already was |
| GraphWrites.LinksSentFirstAreLost | internal/ingest/ingest.go:220-221 | an edge sent before its node statement is lost without an error |
| GraphWrites.RetryIsHarmless | internal/graph/client.go:96-122 | resending a statement after any part of it was applied equals applying the longer part once |
| GraphWrites.Client.Send | internal/graph/client.go:109-114 | one attempt applies some prefix of the chunk and may fail even after all of it, unless the connection is healthy; a refused statement applies nothing |
| GraphWrites.Settled | internal/graph/client.go:96-97 | a row already sent changes nothing when sent again, found or not |
| GraphWrites.Client.RunChunk | internal/graph/client.go:98-122 | up to three attempts get through a prefix of the chunk each; where no two rows conflict they come to one prefix, all of it on success; a node statement that gives one element two values is refused and changes nothing; any other succeeds on a healthy connection |
| GraphWrites.Client.WriteBatch | internal/graph/client.go:68-94 | chunked writes get through the rows in order, all on success; where no two rows conflict a prefix of them is applied; the count never exceeds what was; an oversized batch is refused untouched |
| Durability.RunStaysBetween | internal/ingest/ingest.go:222-267 | wherever writing stops the graph holds the base and wanted rows only, and nothing written is lost |
| Durability.EveryRowLands | internal/ingest/ingest.go:220-221 | with nodes ahead of their edges no row is dropped for want of an endpoint |
| Durability.FinishedGraphIsUnique | internal/checkpoint/checkpoint.go:13-15 | there is only one graph that is the base with all the rows applied |
| Durability.CutShortIsSafe | internal/checkpoint/checkpoint.go:17-18 | a flush cut short after any row leaves every recorded name with all its rows |
| Durability.FlushedIsSafe | internal/checkpoint/checkpoint.go:68-79 | after a finished write any number of its names may be recorded |
| Durability.FinishedLoadsAgree | internal/checkpoint/checkpoint.go:13-15 | two loads of the same names, however interrupted, resumed, ordered and batched, leave the same graph |
| Checkpoint.Checkpoint.Open | internal/checkpoint/checkpoint.go:26-57 | what is done is exactly the nonempty lines of the file |
| Checkpoint.Checkpoint.Unrecorded | internal/ingest/ingest.go:130-143 | the jobs are exactly the names not recorded |
| Checkpoint.Checkpoint.Record | internal/checkpoint/checkpoint.go:68-79 | appends a prefix of the names, all on success, to file and memory alike |
| Ingest.Dedupe | internal/ingest/rows.go:295-314 | keeps the first row of each key, in order |
| Ingest.FirstByAppend | internal/ingest/rows.go:291-294 | of two lists run together, the first rows are those of the first list and those of the second whose key the first has not |
| Ingest.FirstOfEachKeepsOne | internal/ingest/rows.go:291-294 | no key twice, no key lost |
| Ingest.AllKeptIffToldApart | internal/ingest/rows.go:291-294 | no row is dropped for good exactly when rows of one key are one row |
| Ingest.BatchRows | internal/ingest/ingest.go:174-201 | deduplicating across a batch keeps exactly the rows its packages would keep on their own, whatever their order or the batch boundaries |
| Ingest.ScriptsAgree | internal/ingest/rows.go:291-294 | no two rows of any packages assign one property of one element two values, repeats within a package included |
| Ingest.NodesPrecede | internal/ingest/ingest.go:234-246 | in the order of the statements every node comes before every link |
| Ingest.ContributionsAgree | internal/ingest/rows.go:291-294 | rows of one key from two packages are equal under one statement and agree under two |
| Ingest.DedupeAll | internal/ingest/ingest.go:223-233 | the statements carry each list's first rows |
| Ingest.Ingester.Issue | internal/ingest/ingest.go:248-257 | statements go out in order; a stop leaves a prefix of all their rows applied |
| Ingest.OneBatchIsFinished | internal/ingest/ingest.go:177-218 | a single batch of every package is a finished load |
| Ingest.BatchIsSupported | internal/ingest/ingest.go:220-246 | a batch of any packages sends every edge after both its nodes |
| Ingest.Ingester.Write | internal/ingest/ingest.go:222-267 | leaves a prefix of the batch's statements applied in order, all on success |
| Ingest.Ingester.Flush | internal/ingest/ingest.go:182-195 | writes then records; stopped anywhere, every recorded name has all its rows in the graph |
| Ingest.Ingester.Run | internal/ingest/ingest.go:177-218 | over any arrival order, failed fetches, names never to be fetched and a stop anywhere, that invariant holds and the file only grows; a finished run has recorded every name but those that could not be fetched, and an undisturbed run finishes |
| Ingest.Ingester.RunUntilDone | internal/ingest/ingest.go:89-163 | after any number of disturbed runs, one undisturbed run leaves exactly the graph that a single batch of everything there is to fetch would have |
| Ingest.AllRecorded | internal/ingest/ingest.go:177-218 | any load with every name recorded is that graph |
| Ingest.RecordedLinksLand | internal/checkpoint/checkpoint.go:17-18 | at any point of a load, a recorded package's kept dependency links are in the graph |
| Fetch.VersionAt | internal/ingest/epochs.go:37-49 | the latest non-prerelease out by the instant, the first listed among ties, or none when none is eligible |
| Fetch.Sample | internal/ingest/ingest.go:287-297 | each sampled release is current at some epoch, each epoch's is sampled, no version twice |
| Fetch.CurrentReleasesStraddle | internal/ingest/epochs.go:37-49 | the releases current at two instants are one release or were published on either side of the earlier instant |
| Fetch.SampledTimesDifferIff | internal/ingest/ingest.go:285-297 | two sampled releases are stored with one time exactly when one was published on an epoch and another within the second after it |
| Fetch.TimelinePlaced | internal/ingest/ingest.go:271-285 | every version link comes with its version and its package |
| Fetch.SampledPlaced | internal/ingest/ingest.go:299-336 | every sample and dependency link comes with both ends |
| Fetch.DeclarationsSurviveIff | internal/ingest/rows.go:291-294 | of one list, every direct dependency declared is kept if and only if no two of one version name one target and ask different things of it |
| Fetch.DeclarationsReachGraphIff | internal/ingest/ingest.go:220-257 | end to end: once a package is recorded, every direct dependency its sampled versions declare is in the graph with its own range if and only if no two of one version quarrel so |
| Fetch.SecondRangeIsLost | internal/ingest/rows.go:291-294 | of two that do, the second row is there and is not kept |
| Fetch.AccountsPlaced | internal/ingest/ingest.go:338-345 | every maintainer link comes with its account |
| Fetch.Accounts | internal/ingest/ingest.go:338-345 | a row for exactly each account seen and each of its spells |
| Fetch.FetchPackage | internal/ingest/ingest.go:269-347 | fails exactly when the registry does for something it needs; otherwise delivers the timeline, documents, direct dependencies and spells of the package, and every edge comes with both its nodes |
| Fetch.SampledHistoryIsChronological | internal/ingest/ingest.go:299-323 | the observations spells are derived from have distinct instants before the open end if and only if that happens to none whose documents were read |
| Fetch.BoundaryPublishTies | internal/ingest/ingest.go:287-297 | it can: a release on an epoch and another a nanosecond later, whatever the next epoch is |
| Resolver.GatheredIsTheirs | internal/resolve/resolve.go:178-181 | a batch holds all rows of its targets and no others |
| Resolver.Resolver.Flush | internal/resolve/resolve.go:157-176 | writes the windows of a batch, if any, then records its targets; the same invariant wherever it stops |
| Resolver.Resolver.Run | internal/resolve/resolve.go:83-196 | the same over a whole pass: the file only grows, a finished pass has recorded every target that could be read, and an undisturbed one finishes |
| Resolver.Resolver.RunUntilDone | internal/resolve/resolve.go:83-196 | after any number of disturbed passes, one undisturbed pass leaves exactly the graph that a single write of every readable target's windows would have |
| Resolver.AllRecorded | internal/resolve/resolve.go:152-196 | and so does any pass, however interrupted and batched, with every target recorded |
| Resolver.BatchIsReady | internal/resolve/resolve.go:152-196 | links between versions already in the graph stay linkable through every interrupted run |
| EditDistance.Rows | internal/typosquat/distance.go:18-37 | two rows overwritten and swapped hold the last two rows of the full table |
| EditDistance.FillRow | internal/typosquat/distance.go:27-34 | a row is overwritten in place by the next row of the full table |
| EditDistance.EditMovesByOne | internal/typosquat/distance.go:7-10 | one edit of an operand moves the distance by at most one |
| EditDistance.EditDistance | internal/typosquat/distance.go:11-38 | two rolling rows over the swapped operands compute the distance of the decoded operands |
| EditDistance.DistanceIsShortestScript | internal/typosquat/distance.go:7-10 | the distance is attained by some script of single insertions, deletions and substitutions and no script is shorter |
| EditDistance.NoScriptIsShorter | internal/typosquat/distance.go:7-10 | every script from one operand to the other has at least that many steps |
| EditDistance.DistanceIsSymmetric | internal/typosquat/distance.go:13-16 | swapping the operands changes nothing |
| EditDistance.DistanceZero | internal/typosquat/distance.go:11-38 | zero exactly on equal operands |
| EditDistance.TriangleInequality | internal/typosquat/distance.go:11-38 | going through a third operand is never shorter |
| EventStream.ReadEventStream | web/src/lib/sse.ts:9-31 | delivers what one read of the whole text would, however the bytes were cut into reads, characters included |
| EventStream.DecodeResumes | web/src/lib/sse.ts:15-22 | decoding on from what a read held back is decoding the whole |
| EventStream.ResumeWithMore | web/src/lib/sse.ts:19-30 | reading on from a leftover buffer is reading the whole |
| EventStream.DispatchFrame | web/src/lib/sse.ts:33-41 | the last event and data lines of a frame, nothing when there is no data |
| EventStream.FrameEnds | internal/api/audit_stream.go:82-82 | a printed event has its first blank line at its end, whatever follows |
| EventStream.ReadUndoesPrint | internal/api/audit_stream.go:77-83 | reading what the printer wrote gives the events back, in order, nothing left over |
| EventStream.DeliveredAreCarriable | web/src/lib/sse.ts:33-41 | no delivered event has a line break or empty data |
| EventStream.RoundTripIffCarriable | internal/api/audit_stream.go:77-83 | under every cutting, exactly the printed events are delivered if and only if none has a line break or empty data |
| StandardStream.StandardReadsPrintedIff | internal/api/audit_stream.go:77-83 | on events of one line each, the reading of sections 9.2.5 and 9.2.6 of the WHATWG HTML standard gives back what was printed if and only if no event has a carriage return or an empty name |
| StandardStream.ReadersAgreeIff | web/src/lib/sse.ts:3-8 | so on whatever the reader gets through whole, an EventSource would deliver the same events under exactly that condition |
| StandardStream.DeliveredAreDeliverable | web/src/lib/sse.ts:3-8 | whatever it is sent, the standard's reading delivers no carriage return and no empty name |
| StandardStream.EmptyDataIsDelivered | web/src/lib/sse.ts:33-41 | the two differ on an event whose data is empty: the standard delivers it, the reader does not |
| Spells.CloseAbsent | internal/ingest/rows.go:263-273 | exactly the open spells of accounts not listed end at the observation |
| Spells.NotePresent | internal/ingest/rows.go:275-283 | exactly the listed accounts have a spell extended or opened |
| Spells.Finish | internal/ingest/rows.go:286-288 | the spells still open are kept as open |
| Spells.HistoryIsShaped | internal/ingest/rows.go:247-289 | a history's closed spells are nonempty and apart, and an open one begins after them |
| Spells.DeriveSpells | internal/ingest/rows.go:247-289 | each account's spells are those of its history over the observations in time order, whatever order maps are walked in |
| Spells.SpellsFollowObservations | internal/ingest/rows.go:247-289 | an instant is in a spell exactly when the latest observation by then lists the account |
| Spells.SpellsAreSeparate | internal/ingest/rows.go:234-238 | spells are nonempty, separated by gaps and so distinctly started, and only the last can be open |
| Spells.ObservationsAreCounted | internal/ingest/rows.go:221-226 | the observed counts add up to the number of observations listing the account |
| Spells.EmptySpellIffTie | internal/ingest/rows.go:247-289 | every listing gives nonempty spells exactly when the sampling instants are distinct |
| Advisory.SortBounds | internal/advisory/ranges.go:67-67 | the boundaries in some order, none lost, and in ascending precedence where that orders them |
| Advisory.TiesAgreeIsSortable | internal/advisory/ranges.go:67-67 | boundaries whose ties are at one version can be sorted by precedence |
| Advisory.DistinctIsSortable | internal/advisory/ranges.go:67-67 | and so can boundaries told apart by it |
| Advisory.AmongAffected | internal/advisory/ranges.go:69-79 | a release is returned exactly when it is given, parses and evaluates as affected |
| Advisory.IsAffected | internal/advisory/ranges.go:95-113 | the verdict of the boundaries before the first that is past the version |
| Advisory.StoppingIsSafeIff | internal/advisory/ranges.go:95-100 | for boundaries at given ascending versions, of whatever kinds, stopping at the first that is past gives every version the verdict of all of them if and only if none overtakes another |
| Advisory.VerdictIsEvaluation | internal/advisory/ranges.go:95-113 | where none does, stopping early gives the verdict of all of them |
| Advisory.TiesAgreeNeverOvertakes | internal/advisory/ranges.go:95-100 | boundaries whose ties are at one version never do |
| Advisory.StrictTiesAgree | internal/advisory/ranges.go:67-67 | boundaries told apart by precedence are such |
| Advisory.ComparableTiesAgree | internal/advisory/ranges.go:67-67 | and so are boundaries over identifiers that spell no number in two ways |
| Advisory.StoppingEarlyMisses | internal/advisory/ranges.go:97-100 | any two spellings of one number make two boundaries and a version for which the second is missed |
| Advisory.LaterEventsDoNothing | internal/advisory/ranges.go:97-100 | no boundary above the version changes its verdict |
| Advisory.AffectedIsUnionOfSpans | internal/advisory/ranges.go:30-35 | for alternating introduced and fixed at rising versions, affected is membership in the union of the half-open spans |
| Advisory.SortIsForced | internal/advisory/ranges.go:67-67 | boundaries of distinct precedence have one sorted order, so an unstable sort does not matter |
| Advisory.AffectedVersions | internal/advisory/ranges.go:36-80 | nothing for a git range; otherwise, in order, the releases that parse and that some arrangement of the readable events affects, a sorted one where precedence orders them |
| SortChoice.VerdictIsPossibleIff | internal/advisory/ranges.go:67-67 | for boundaries that precedence orders, some sorting gives a version a verdict if and only if a boundary that says so has nothing above it that must be read, or, for unaffected, nothing that says anything must be read |
| SortChoice.ReleaseMayBeReturnedIff | internal/advisory/ranges.go:36-80 | so a release may be returned, or left out, exactly when that is a possible verdict on it |
| SortChoice.SortChoiceMattersIff | internal/advisory/ranges.go:67-67 | where ties are at one version both verdicts are possible if and only if, of the highest boundaries that bear on it, one introduces and another of equal precedence ends |
| Advisory.AffectedReleases | internal/advisory/ranges.go:36-80 | end to end: when the events, in whatever order published, are introductions and fixes in turn at distinct versions, a release is returned exactly when it lies in one of the half-open spans |
| Advisory.SortedIsStrict | internal/advisory/ranges.go:67-67 | any sorting of events of distinct precedence is strict |
| Advisory.ZeroIsNotTheBeginning | internal/advisory/ranges.go:82-93 | "0" as introduced affects every version except the prereleases of 0.0.0 |

## Left out

- Expander.GraphExpander.Expand: the collection of version attributes on the way is not modelled, nor are rows that are not single hops.
- Roster.KnownVersions: publish times arrive as a map; the batched read of them and its failure are not modelled.
- Audit.Audit: risk signals and scores are not modelled; the ranking they give is any rearrangement of the roster.
- Roster.Keyholders: tenures arrive as values, not through the split read that fetches them.
- Duality.AuditAndWhoAreDual: assumes no edge is valid before either of its ends was published; `Duality.ResolvedEdgesAreTimely` proves it of edges built by the resolution pass.
- Duality.WhoIs: the versions of each package arrive as a map; `readVersions` and its splitting are not modelled.
- Proof.ProofPath: the database procedure is any function from a chunk of sources to paths of single edges; its own limit of 64 paths a pair means an absent chain proves nothing. Ranges on hops and `HolderChains` are not modelled.
- ResolutionWindows.Windows: where precedence does not order the admitted releases of some publish second, the comparison the sort falls back on is no order, `sort.Slice` promises nothing, and only rising versions are promised; `ResolutionWindows.SweptAnswers` holds of any publish order.
- Exposure.ResolveTarget: the same, for every range declared on the package.
- Advisory.SortBounds: the same, for boundaries that precedence does not order; `Advisory.TiesAgreeIsSortable` says when it does.
- SemverRange.HyphenAdmits: the splitting of range text into alternatives and tokens (`ParseRange`, `parseComparatorSet`, `joinLooseOperators`) is not modelled; single tokens and operands are.
- SemverRange.BoundAdmits: a wildcard major under an operator is read as 0, as the code does, not as any version.
- VersionText.ParseUndoesWritten: `TrimSpace` is modelled on ASCII space alone.
- HyperLogLog.RunEpochSketched: `Count` is an arbitrary function of the registers and `hash64` an arbitrary 64-bit function, so nothing is said about estimation error.
- Propagation.RunEpoch: workers run one after another; what is modelled of concurrency is that their local maps are disjoint objects and are folded in chunk order.
- Exposure.ResolvedWhileLive: error paths of its two sources are not modelled.
- EditDistance.EditDistance: the decoding of bytes to runes is a parameter.
- EventStream.ReadEventStream: the decoder of characters is any that works byte by byte; `TextDecoder` is taken to be one.
- StandardStream.ReadersAgreeIff: of the standard's reading, the last event id and the reconnection time are not modelled, nor is a byte order mark, which the printer never writes.
- Advisory.AffectedVersions: the result is that of some sorted order of the boundaries; `SortChoice.VerdictIsPossibleIff` says what choice that leaves.
- GraphWrites.Client.WriteBatch: ids hashed from URNs are taken to be injective; a statement's text is its row's constructor.
- Checkpoint.Checkpoint.Record: names hold no line breaks and an appended line is atomic, so the file is a list of lines.
- Ingest.Ingester.Run: fetched rows are a fixed value per name, the same in every run; progress output, counters, cancellation and goroutines other than arrival order are not modelled.
- Fetch.FetchPackage: the registry answers about the version it was asked for; HTTP, caching and JSON are not modelled, and the epochs are given.
- Resolver.Resolver.Run: the windows of each target are given; `Exposure.ResolveTarget` says what they are and that no two claim one edge.
- Times are unbounded integers below the open end, not 64-bit.
- The ratio of spans to nodes that a search reports, risk scores, the observatory's snapshots and maintainer totals, typosquat candidate search, lockfile scanning, the HTTP server, the command line and the web interface are not modelled.
