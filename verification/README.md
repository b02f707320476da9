# A model of GripMock in Dafny

GripMock is a mock server for gRPC: it answers calls from stubs, proxies calls to an upstream and
captures them as new stubs, accepts descriptors at run time, and keeps a history of calls. This
project models the parts that hold an algorithm or a protocol of their own and proves what they
promise. `dafny verify dfyconfig.toml` checks all of it.

| area | modules |
|---|---|
| matching and ranking | `EditDistance`, `IgnoreOrder`, `Prefilter`, `Rank`, `Pairing` over `Utf8`, `Json` |
| plugin order | `PluginGraph` (the specification), `KahnOrder` (production), `DepthFirstOrder` (the test double) |
| descriptors | `DescriptorRegistry`, `DescriptorCache` (interleavings), `DescriptorResolution`, `SchemaExpansion`, `ImportRoots` |
| call history | `HistoryLog` (the log as a value), `HistoryStore` (the store in place), `Redaction`, `HistoryPager` |
| wire formats | `Envelope`, `WebText` |
| streaming proxy | `BidiProxy` (interleavings), `StreamCapture` (delays and shared messages) |

`Bounds`, `Finite`, `Sorting`, `Subsequences`, `Sums` and `Wrappers` are helpers. Strings are bytes;
where the program decodes them into runes, so does `Utf8`, with U+FFFD for every byte that starts no
valid unit. Scores are real numbers. Objects that the program mutates are classes, its loops are
methods with invariants, and each method is proved against a function or predicate; what these
functions compute is said by contracts and lemmas that do not name them, for scores, distances,
selected calls, kept records and decoded bytes alike. The lock-protected lookups of `DescriptorCache`
and the two forwarders of `BidiProxy` are state machines: a run is any sequence of their steps, the
results hold in every state of every run, and lemmas on what can happen show that the runs are there.

Parameters stand for what the model does not look into: the regular expression engine's verdict and
span (`Finder` in `Rank`), the size estimate and the JSON length of a record, lower-casing of keys,
gzip (`Codec` in `Envelope`), how much a connection takes before it fails, the files linked into the
program, and everything that building a descriptor checks besides imports and names (`wellFormed`).

## Where the program does not do what it says

Each case comes with a smallest input and, but for what is said below on alternations of other branches
than words, with the exact condition under which the promise holds.

- The similarity is documented as 1.0 for identical strings only. Strings that differ only in how
  they spell U+FFFD, stray bytes included, score 1.0 too (`EditDistance.StrayBytesScoreFull`,
  `EditDistance.FullScoreMeansEqual`).
- The prefilter must not reject a match. It can where U+FFFD occurs in the literal prefix, since the
  engine matches runes and the prefilter compares bytes (`Prefilter.StrayByteIsTurnedAway`,
  `Prefilter.PrescreenExact`), and where a branch of a top-level alternation does not begin with the
  anchor and the first branch's prefix (`Prefilter.SecondBranchIsTurnedAway`). For branches that are
  words this is exact (`Prefilter.TopAlternation`); for other branches it is enough that the first
  one's prefix leads each one's own prefix (`Prefilter.AlternationSound`), but a branch may match only
  what starts with it for another reason, as a class of one character does.
- The comment on the greedy array score says that an expected element is paired with the best unused
  actual element. It takes every unused one that scores at all (`Rank.TakesBoth`), which is the same
  pairing exactly if no two actual elements share their first scorer (`Rank.DocumentedScoreExactly`).
  Different pairings can still have the same score (`Pairing.SameGains`).
- Reading an envelope is documented to report an unexpected end when the peer closes in the middle of
  a frame. Right behind a header it reports a clean end (`Envelope.BareHeaderLooksClean`,
  `Envelope.CleanEndExactly`).
- A schema names and expands the message types that fields refer to, but not those of group fields
  (`SchemaExpansion.GroupTypeIsLost`, `SchemaExpansion.ReachableIsExpanded`,
  `SchemaExpansion.SchemaDeterminesTypes`, `SchemaExpansion.SchemaIsLossless`).
- Recorded delays lose the time before responses that are not objects: a bidirectional replay is early
  from there on (`StreamCapture.ReplayDrifts`, `StreamCapture.ReplayIsOnTime`), and the replay of a
  server stream ends there with an error (`StreamCapture.ServerReplay`).
- A bidirectional call's history loses an upstream field named like the marker; a server stream's
  does not (`StreamCapture.HistoriesDiffer`, `StreamCapture.HistoriesAgree`).
- The test double reports a plugin that is registered twice and skipped as skipped twice; production
  registers it once (`DepthFirstOrder.RegisteredTwice`, `DepthFirstOrder.Agreement`).
- Whether an uploaded descriptor set is accepted can depend on the order of its files: one of them can
  take a name from another that finds it in a linked-in file (`DescriptorResolution.OrderMatters`). For
  a set that some order makes acceptable it does so exactly if files that can be built one after the
  other take a name from one still to come (`DescriptorResolution.OrderDoesNotMatter`).
- The whole-body base64 decoder is tried first and is no mere shortcut for a body whose two pads stand
  on two lines (`WebText.SplitPadding`, `WebText.ShortcutsExactly`).

## Model

| member | source | states |
|---|---|---|
| `EditDistance.LevIsShortest` | internal/infra/deeply/ranker.go:240-252 | the number in the last cell is the length of a shortest chain of single insertions, deletions and substitutions from one string to the other: some chain has that length, and no chain is shorter |
| `EditDistance.ColumnDistance` | internal/infra/deeply/ranker.go:222-248 | the one-column loop, the same in the byte and the rune version, ends with the edit distance of the two sequences, whatever their element type |
| `EditDistance.Distance` | internal/infra/deeply/ranker.go:201-253 | with both early returns and the choice between the byte and the rune path: 1 for equal strings, 0 for an empty one against any other; else the result times the longer length in runes is that length less the least number of single edits from one rune sequence to the other |
| `EditDistance.DistanceASCII` | internal/infra/deeply/ranker.go:256-302 | the byte version: the result times the longer length in bytes is that length less the least number of single edits from one byte sequence to the other |
| `EditDistance.AsciiPathAgrees` | internal/infra/deeply/ranker.go:213-219 | on ASCII input the byte path and the rune path give the same similarity |
| `EditDistance.SimilarityLaws` | internal/infra/deeply/ranker.go:199-253 | the similarity lies in [0,1], is symmetric, and is 1 exactly if the strings are equal or non-empty with equal decodings |
| `EditDistance.FullScoreMeansEqual` | internal/infra/deeply/ranker.go:199-203 | "1.0 = identical" holds for a string s against every other string if and only if U+FFFD does not occur in the decoding of s |
| `EditDistance.StrayBytesScoreFull` | internal/infra/deeply/ranker.go:219-252 | two different one-byte strings that are not UTF-8 score 1.0 |
| `EditDistance.LevSymmetric` | internal/infra/deeply/ranker.go:240-244 | the distance does not depend on which string is the column |
| `Utf8.DecodingInjective` | internal/infra/deeply/ranker.go:219-219 | converting to runes loses nothing as long as U+FFFD does not occur in the result |
| `Utf8.UnitsAreEncodings` | internal/infra/deeply/ranker.go:219-219 | the decoder accepts exactly the encodings of Unicode scalar values (section 3 of RFC 3629), and reads back what was encoded |
| `Utf8.RunePrefixIsBytePrefix` | internal/infra/deeply/regex_cache.go:38-42 | a prefix in runes without U+FFFD is a prefix in bytes, which is what the prefilter compares |
| `Utf8.PrefixInRunes` | internal/infra/deeply/regex_cache.go:38-42 | and a prefix in bytes whose decoding is free of U+FFFD is a prefix in runes |
| `Utf8.Respell` | internal/infra/deeply/regex_cache.go:38-42 | where U+FFFD occurs in a rune prefix, there is another byte spelling of the same subject that departs from the prefix |
| `IgnoreOrder.EqualsIgnoreArrayOrder` | internal/infra/deeply/equals.go:10-18 | true exactly if the values are the same up to array order: at every array level some bijection pairs the elements recursively |
| `IgnoreOrder.MapDeepCompare` | internal/infra/deeply/compare_helpers.go:6-31 | true exactly for an object or nil on the left that is the same up to order as the right side |
| `IgnoreOrder.MapAnyCompare` | internal/infra/deeply/compare_helpers.go:33-51 | equal lengths and a one-sided scan decide that both objects have the same keys with the same values up to order |
| `IgnoreOrder.SlicesDeepCompare` | internal/infra/deeply/compare_helpers.go:54-75 | true exactly for an array or nil on the left that is the same up to order as the right side |
| `IgnoreOrder.SlicesDeepEqualContains` | internal/infra/deeply/common.go:64-80 | greedy first fit with marks succeeds exactly if a one-to-one pairing exists |
| `IgnoreOrder.Exchange` | internal/infra/deeply/common.go:68-76 | taking any free partner that fits never spoils an existing pairing: another pairing extends the choices made |
| `IgnoreOrder.SameReflexive` | internal/infra/deeply/equals.go:7-18 | every value equals itself up to array order |
| `IgnoreOrder.SameSymmetric` | internal/infra/deeply/equals.go:7-18 | equality up to array order does not depend on which side is expected |
| `IgnoreOrder.SameTransitive` | internal/infra/deeply/equals.go:7-18 | equality up to array order is transitive |
| `IgnoreOrder.ArraylessExactly` | internal/infra/deeply/equals.go:10-18 | without arrays at any depth, equality up to array order is equality |
| `IgnoreOrder.FlatArraysExactly` | internal/infra/deeply/equals.go:10-18 | arrays of such values are the same if and only if they hold each value equally often |
| `IgnoreOrder.Inverse` | internal/infra/deeply/common.go:64-80 | a full injection of indices has an inverse, so a pairing read backwards is one |
| `Prefilter.AnchoredPrefix` | internal/infra/deeply/regex_cache.go:44-64 | the scan, advancing and then shrinking `end`, returns the characters up to the first metacharacter, without the last rune if `*`, `?` or `{` follows |
| `Prefilter.PrefixIsKept` | internal/infra/deeply/regex_cache.go:44-64 | on the text of `^` and a sequence of items the scan finds the literal runes read off the syntax tree: all up to the first item that is no plain literal, with a `+` kept and a literal before `*`, `?` or a counted repetition dropped, even where it must occur |
| `Prefilter.KeptLeads` | internal/infra/deeply/regex_cache.go:49-63 | in every match of the items, the kept runes are the first ones |
| `Prefilter.MatchesLead` | internal/infra/deeply/regex_cache.go:38-64 | whenever a pattern without alternation at the top, anchored or not, matches anywhere in the subject, the subject's runes start with the prefix's runes |
| `Prefilter.PrescreenSound` | internal/infra/deeply/regex_cache.go:38-42 | if the prefilter says no, the pattern has no match in the subject, for every well-formed pattern without alternation at the top whose prefix is free of U+FFFD |
| `Prefilter.PrescreenExact` | internal/infra/deeply/regex_cache.go:38-42 | for such a pattern that matches at all, the prefilter never rejects a match if and only if U+FFFD does not occur in the prefix |
| `Prefilter.WithoutMeta` | internal/infra/deeply/regex_cache.go:28-36 | a pattern is found to have no metacharacter if and only if it consists of literal runes, and then it matches exactly the subjects in which its runes occur one after the other |
| `Prefilter.StrayByteIsTurnedAway` | internal/infra/deeply/regex_cache.go:38-42 | a literal U+FFFD behind the anchor matches a stray byte, which the prefilter rejects |
| `Prefilter.AlternationSound` | internal/infra/deeply/regex_cache.go:44-64 | an alternation of arbitrary well-formed branches is screened soundly if the first branch's own prefix is free of U+FFFD and leads every branch's own prefix |
| `Prefilter.TopAlternation` | internal/infra/deeply/regex_cache.go:44-64 | for an alternation of any number of words, each anchored or not, the prefilter never rejects a match if and only if the first branch is not anchored or is the bare anchor, or every branch is anchored and begins with the first one's word |
| `Prefilter.SecondBranchIsTurnedAway` | internal/infra/deeply/regex_cache.go:44-64 | with both branches anchored, one for a and one for b, the pattern matches b, which the prefilter rejects |
| `Rank.RankMatch` | internal/infra/deeply/ranker.go:12-39 | the score is that of the reference and lies between 0 and 67 |
| `Rank.RankMatchWithDepth` | internal/infra/deeply/ranker.go:18-39 | with the depth cut, the empty-map rule and the three summands the result is the reference score at that depth |
| `Rank.SlicesRankMatch` | internal/infra/deeply/ranker.go:155-197 | the loop over expected elements, each consuming every free actual element it scores with, marks each actual element for the first expected element that scores it and adds up those scores; divided by the longer length |
| `Rank.OneMoreActual` | internal/infra/deeply/ranker.go:155-197 | one more actual element adds exactly what it scores, one level down, with the first expected element that scores it at all, and nothing if none does, before the division by the longer length |
| `Rank.DocumentedScoreExactly` | internal/infra/deeply/ranker.go:149-197 | the score is that of what is consumed, and what is consumed is the documented pairing, each expected element with its best unused actual element, if and only if no two actual elements share their first scorer; then the scores are equal too |
| `Rank.TakesBoth` | internal/infra/deeply/ranker.go:149-197 | one string expected of two equal ones scores 1, where the documented pairing scores one half |
| `Pairing.DocumentedExactly` | internal/infra/deeply/ranker.go:149-188 | for any table of scores, consuming all and pairing with the best coincide if and only if consuming is one-to-one |
| `Pairing.OneToOneExactly` | internal/infra/deeply/ranker.go:177-188 | consuming is one-to-one if and only if no two columns share the first row that scores them |
| `Pairing.DocumentedIsGreedy` | internal/infra/deeply/ranker.go:149-152 | the documented pairing is one-to-one and pairs only what scores |
| `Pairing.BestIsBest` | internal/infra/deeply/ranker.go:149-152 | the partner it picks is free and scores no less than any other free one, and there is none only if no free one scores |
| `Pairing.SameGains` | internal/infra/deeply/ranker.go:149-188 | two different pairings of one table can gain the same |
| `Rank.MapRankMatch` | internal/infra/deeply/ranker.go:97-113 | the sum over shared keys, in any iteration order, divided by the larger key count; what that sum is, key by key, is said by SharedField and LoneField |
| `Rank.SharedField` | internal/infra/deeply/ranker.go:97-113 | one more key in both objects adds exactly the score of its two values one level down, before the division by the larger key count |
| `Rank.LoneField` | internal/infra/deeply/ranker.go:97-113 | a key in one object only adds nothing before the division |
| `Rank.EmptyObject` | internal/infra/deeply/ranker.go:16-26 | an empty expected object scores 0.1 against anything, down to the depth limit of 64 |
| `Rank.DifferentFields` | internal/infra/deeply/ranker.go:97-113 | two objects with one common key and different letters under it score 0 as objects |
| `Rank.ScoreBound` | internal/infra/deeply/ranker.go:12-39 | at depth d the score lies between 0 and 3 plus the number of levels left, with nothing beyond the depth limit |
| `Rank.ArrayBound` | internal/infra/deeply/ranker.go:155-197 | an array contributes at most the bound of one level further down, because each actual element counts once |
| `Rank.ObjectBound` | internal/infra/deeply/ranker.go:97-113 | an object contributes at most the bound of one level further down |
| `Rank.WholeRange` | internal/infra/deeply/ranker.go:44-93 | the score of two values taken as wholes lies in [0,1], whatever span the regular expression matched |
| `Rank.HitShare` | internal/infra/deeply/ranker.go:77-93 | a pattern that finds a part of the subject scores that part's share of the subject's length in bytes |
| `Rank.WithoutHit` | internal/infra/deeply/ranker.go:44-73 | without a match texts score by edit distance; a number counts as its digits and nil as the empty text; truth values score 0; all else scores 1 if equal and 0 otherwise |
| `Rank.NestedScore` | internal/infra/deeply/ranker.go:18-39 | n arrays around nil score n + 3 against themselves |
| `Rank.BoundReached` | internal/infra/deeply/ranker.go:16-39 | the bound of 67 is reached, by 64 nested arrays around nil |
| `KahnOrder.Registry.EnsurePlugin` | internal/infra/plugins/registry.go:182-189 | a name is registered once, at the end of the order; a second registration changes nothing |
| `KahnOrder.Registry.AddDepend` | internal/infra/plugins/registry.go:290-307 | a dependency is appended unless it is empty or there already, so lists stay free of repetitions |
| `KahnOrder.Registry.AddPlugin` | internal/infra/plugins/registry.go:51-65 | registration with the owners of what the plugin decorates changes only this plugin's dependencies, by exactly those owners |
| `KahnOrder.Registry.SortedPluginOrder` | internal/infra/plugins/registry.go:309-331 | the order holds exactly the registered plugins that reach no dependency cycle, each once, after all its registered dependencies; the skipped list holds exactly the others, alphabetically |
| `KahnOrder.Registry.BuildGraph` | internal/infra/plugins/registry.go:333-354 | the reversed lists hold exactly the edges between registered plugins, and the in-degree of a plugin is the number of its registered dependencies |
| `KahnOrder.Registry.Release` | internal/infra/plugins/registry.go:320-325 | decrementing the dependents of the plugin taken, and queueing those that reach zero, keeps the loop invariant of the ordering |
| `KahnOrder.Registry.ZeroIndegreeQueue` | internal/infra/plugins/registry.go:356-365 | the queue starts with exactly the plugins that have no registered dependency |
| `KahnOrder.Registry.CollectCycles` | internal/infra/plugins/registry.go:367-382 | the plugins whose in-degree is still positive, sorted, are exactly those from which a cycle can be reached; and the early return is right |
| `PluginGraph.OrderSettles` | internal/infra/plugins/registry.go:309-331 | an order closed under dependencies, while everything else has a dependency outside it, is exactly the part that reaches no cycle |
| `PluginGraph.StuckReachesCycle` | internal/infra/plugins/registry.go:367-382 | if each plugin of a set has a dependency in the set, a cycle can be reached from each of them |
| `PluginGraph.OrdersAgree` | pkg/plugintest/registry.go:282-335 | two orderings of one graph that meet the specification skip the same list and order the same plugins |
| `PluginGraph.AcyclicSkipsNothing` | internal/infra/plugins/registry.go:367-370 | nothing is skipped if and only if there is no dependency cycle among registered plugins, and then everything is ordered |
| `DepthFirstOrder.TestRegistry.AddPlugin` | pkg/plugintest/registry.go:48-49 | the test double lists every registration, also of a name it has |
| `DepthFirstOrder.TestRegistry.AddDepend` | pkg/plugintest/registry.go:167-184 | a dependency is appended unless it is empty or there already |
| `DepthFirstOrder.Search.Visit` | pkg/plugintest/registry.go:293-322 | the three-colour visit keeps: every finished name reaches a cycle if it is marked and reaches none otherwise; the path in progress leads from name to name; everything finished without a mark stays so |
| `DepthFirstOrder.TestRegistry.SortedPluginOrder` | pkg/plugintest/registry.go:282-335 | the depth-first order meets the same specification as the production one; a name is reported as skipped as often as it was registered, so the skipped list meets it if and only if no name that reaches a cycle is registered twice |
| `DepthFirstOrder.Agreement` | pkg/plugintest/registry.go:282-335 | for the same dependencies the production registry and the test double order the same plugins, each after its dependencies, and skip the same names; the skipped lists are the same if and only if no name that reaches a cycle is registered twice |
| `DepthFirstOrder.RegisteredTwice` | pkg/plugintest/registry.go:324-330 | a plugin that depends on itself, registered twice, is skipped once in production and twice by the test double |
| `DescriptorRegistry.Registry.Register` | internal/domain/descriptors/registry.go:24-30 | replaces the file at its path and makes a new generation |
| `DescriptorRegistry.Registry.UnregisterByPath` | internal/domain/descriptors/registry.go:33-45 | removes exactly that path, and makes a new generation only if something was removed |
| `DescriptorRegistry.Registry.UnregisterByService` | internal/domain/descriptors/registry.go:48-70 | removes exactly the files that declare the service, one generation each, and changes no other |
| `DescriptorRegistry.Registry.Generation` | internal/domain/descriptors/registry.go:73-78 | the number identifies the current files among all that have ever been registered |
| `DescriptorRegistry.ClashFreeExactly` | internal/app/grpc_registration.go:287-293 | files do not clash if and only if their paths differ and one symbol table can say of every name whether it is a package or in which file it is declared |
| `DescriptorCache.BuildView` | internal/app/grpc_registration.go:287-293 | registering the files one by one, in any order and ignoring refusals, leaves a clash-free set that lacks only files clashing with one in it, by path, by declared name, or by a name that is a package in one and a declaration in the other |
| `DescriptorCache.ViewOfCompatibleFiles` | internal/app/grpc_registration.go:287-293 | if no two files clash, the view is all of them |
| `DescriptorCache.NextKeepsInv` | internal/app/grpc_registration.go:271-299 | every step of every lookup and every mutation keeps: a view's label never exceeds the generation of its contents, the cache's lock has one holder, and each lookup knows a generation no older than its start |
| `DescriptorCache.LookupIsCurrent` | internal/app/grpc_registration.go:276-298 | in every interleaving a lookup returns a view of the registry as it was at some moment between the start of the call and its end: files of it, no two clashing, lacking only files that clash with one in the view |
| `DescriptorCache.QuietLookup` | internal/app/grpc_registration.go:271-299 | if nothing changed during the call, the view is one of the current files, and all of them if none clash |
| `DescriptorCache.LookupsAreMonotone` | internal/app/grpc_registration.go:271-299 | a lookup that starts after another one has returned never sees an older registry |
| `DescriptorCache.FreshLabelMeansFreshView` | internal/app/grpc_registration.go:276-284 | a label equal to the current generation means that the view is one of the current files; a mutation that races a rebuild leaves the label behind |
| `DescriptorCache.RebuildsExclude` | internal/app/grpc_registration.go:280-281 | the lock is held by a lookup if and only if it is comparing labels or rebuilding, so one at a time and not beyond its end |
| `DescriptorCache.HitsExactly` | internal/app/grpc_registration.go:276-298 | inside the lock the cached view is returned if and only if its label is the generation that the lookup has read; otherwise it is rebuilt |
| `DescriptorCache.NoDeadlock` | internal/app/grpc_registration.go:271-299 | in every interleaving a lookup can be called, and one under way can take a step, or waits for the lock while its holder can take one |
| `HistoryStore.MemoryStore.RecordOwned` | internal/domain/history/recorder.go:119-138 | appends the prepared record, then drops records from the front while the budget is exceeded and more than one is held; the byte counter stays the sum of the sizes |
| `HistoryStore.MemoryStore.DeleteSession` | internal/domain/history/recorder.go:513-541 | compaction over the backing array leaves exactly the other sessions' records in order, recounts the bytes and returns how many were removed; an empty session name removes nothing |
| `HistoryStore.MemoryStore.Compact` | internal/domain/history/recorder.go:521-536 | writing the kept records over the slice that is being read loses none and repeats none |
| `HistoryStore.MemoryStore.Clear` | internal/domain/history/recorder.go:141-147 | empties the store and resets the counter |
| `HistoryLog.RecordsKeepLongest` | internal/domain/history/recorder.go:134-137 | after any run of records the store holds exactly the longest suffix of all records ever made that fits the limit, or the last one alone |
| `HistoryLog.BudgetHolds` | internal/domain/history/recorder.go:134-137 | over any run of records, deletions and clears a positive limit is exceeded only by a single record |
| `HistoryLog.BudgetDropsOldest` | internal/domain/history/recorder.go:134-137 | over any run of records, deletions and clears the store is a suffix of what the same run leaves without a limit |
| `HistoryLog.OthersAreKept` | internal/domain/history/recorder.go:521-536 | deleting a session removes all of its records and keeps each other one as often as it was there |
| `HistoryLog.AfterKeepsLongest` | internal/domain/history/recorder.go:119-137 | one more record leaves the longest suffix that fits of what was there and that record, prepared, with the size of what is kept |
| `HistoryLog.DeletionLosesOnly` | internal/domain/history/recorder.go:513-541 | deleting without a session loses nothing; with one, exactly its records, and keeps each other one as often as it was there |
| `HistoryLog.KeptWasRecorded` | internal/domain/history/recorder.go:119-135 | over any run, what is kept was recorded, is prepared, and is accounted for with the size of what is kept, not of what came in |
| `Redaction.EveryPlace` | internal/domain/history/recorder.go:239-277 | at a place whose path passes no redacted key stands the redaction of what stood there, at one that ends with its first redacted key stands the fixed text, and behind that is nothing: at any depth through objects and arrays |
| `Redaction.RedactionHidesExactly` | internal/domain/history/recorder.go:239-277 | two values become equal if and only if they differ only under redacted keys: nothing under them survives and nothing else is lost |
| `Redaction.RedactAgain` | internal/domain/history/recorder.go:239-277 | redacting twice is redacting once |
| `Redaction.RecordHidesExactly` | internal/domain/history/recorder.go:155-187 | two calls become the same record if and only if they differ only under redacted keys, in messages or response headers |
| `Redaction.RedactedFields` | internal/domain/history/recorder.go:239-258 | a value is replaced if and only if its key in lower case is among the redacted ones; every key stays |
| `Redaction.RecordPlaces` | internal/domain/history/recorder.go:155-161 | each request, response and header stays in its place, redacted, and nothing else of the record changes |
| `Redaction.PreparedMessages` | internal/domain/history/recorder.go:119-126 | what is kept of each message is its redaction, or the marker if and only if a limit is set and the text of the redaction is longer |
| `Redaction.PreparedAlike` | internal/domain/history/recorder.go:119-126 | such calls are kept as the same record, truncation included, whether or not there are redacted keys at all |
| `Redaction.RunsTellNoSecret` | internal/domain/history/recorder.go:119-147 | whole runs that differ only under redacted keys leave the same store: no kept record, no size and no eviction depends on a redacted value |
| `HistoryPager.Filter` | internal/domain/history/recorder.go:412-446 | exactly the calls with the service and the method asked for, of the session asked for or of none, and failed if errors are asked for: each as often as it is held, in the order of the log; without criteria the whole log |
| `HistoryPager.CountFilter` | internal/domain/history/recorder.go:449-457 | the number of such calls, without collecting them |
| `HistoryPager.FilterWindow` | internal/domain/history/recorder.go:462-490 | the ring-buffer pager returns the total of such calls and a page of them, the same as filtering everything and slicing, for every limit and offset, positive or not: behind the page stand the newest ones to be skipped, and it is full unless it starts with the oldest |
| `HistoryPager.FillRing` | internal/domain/history/recorder.go:471-478 | after any number of matches the ring holds the newest of them, the one numbered k in slot k modulo the size |
| `HistoryPager.HistoryWindow` | internal/app/rest_dashboard.go:148-164 | the simple pager returns that page and total too |
| `HistoryPager.PagesCover` | internal/domain/history/recorder.go:459-490 | pages of one size, newest first, put together again, are the whole filtered history: nothing is repeated or missed |
| `Envelope.ReadConnectFrame` | internal/app/connect_envelope.go:60-89 | reads one frame or reports the error that the reference parser reports, and consumes as many bytes, also on failure |
| `Envelope.ByteReader.ReadFull` | internal/app/connect_envelope.go:63-86 | reads n bytes, or reports EOF if there is none and an unexpected EOF if there are some but too few |
| `Envelope.WriteConnectFrameEncoded` | internal/app/connect_envelope.go:102-131 | appends the wire form of the encoded frame, cut where the connection fails, or nothing if compression fails; success means that all of it was taken |
| `Envelope.FrameRoundTrip` | internal/app/connect_envelope.go:60-131 | a frame written in front of anything is read back if and only if its payload is at most 4 MiB, and consumes just its bytes; the length wraps at 2^32 |
| `Envelope.StreamRoundTrip` | internal/app/connect_envelope.go:60-131 | any sequence of frames of at most 4 MiB, written and then read, gives the same frames and then a clean end |
| `Envelope.MessageRoundTrip` | internal/app/gateway_frame_compression.go:59-109 | a message sent with any encoding is decoded to itself and the end-of-stream flag survives, if the codec's two halves are inverse |
| `Envelope.CompressionIsFlagged` | internal/app/gateway_frame_compression.go:59-109 | the lowest flag is set if and only if gzip is negotiated and there is something to compress, and then the payload is what gzip makes of it; a frame with that flag is not decoded unless gzip was negotiated |
| `Envelope.CutStream` | internal/app/connect_envelope.go:60-89 | cutting the byte stream anywhere yields exactly the frames complete before the cut, then an end or an error, never a wrong frame |
| `Envelope.CleanEndExactly` | internal/app/connect_envelope.go:57-70 | a cut stream is reported as cleanly ended only between two frames, if and only if the cut does not fall right behind the header of a frame with a payload |
| `Envelope.BareHeaderLooksClean` | internal/app/connect_envelope.go:57-86 | a lone header that announces one byte is reported as a clean end |
| `Envelope.BigEndianInverse` | internal/app/connect_envelope.go:72-116 | reading four bytes of a length gives the length modulo 2^32 |
| `Envelope.BigEndianOrders` | internal/app/connect_envelope.go:72-116 | the most significant byte is sent first: of two lengths below 2^32 the smaller one is encoded as the smaller byte string |
| `WebText.DecodeConcatenatedBase64` | internal/app/grpcweb_text.go:72-107 | the two nested loops decode each padded run and the unpadded rest, and fail where one of them does |
| `WebText.DecodeGRPCWebText` | internal/app/grpcweb_text.go:55-70 | trimming of Unicode spaces, the two shortcuts and the general decoder, in that order |
| `WebText.EncodingDecodes` | internal/app/grpcweb_text.go:61-67 | standard encoding with padding is undone by the padded decoder, and by the unpadded one when no padding was needed (section 4 of RFC 4648) |
| `WebText.SymbolsAreStandard` | internal/app/grpcweb_text.go:61-67 | the 64 symbols are those of Table 1 of RFC 4648, in its order, and there are no others |
| `WebText.QuadSpells` | internal/app/grpcweb_text.go:61-67 | four symbols spell the same 24-bit number as the three bytes they encode, most significant digit first |
| `WebText.ShortQuads` | internal/app/grpcweb_text.go:61-67 | one or two bytes are encoded as if zero bits followed, and the symbols of missing bytes are pads (section 4 of RFC 4648) |
| `WebText.BareDecodes` | internal/app/grpcweb_text.go:61-67 | an encoding without its pads is undone by the unpadded decoder |
| `WebText.BareLacksPads` | internal/app/grpcweb_text.go:61-67 | and all that it lacks is at most two pads at the end |
| `WebText.SpacesAreUnicode` | internal/app/grpcweb_text.go:56-56 | what is trimmed are the 25 code points that Unicode calls white space |
| `WebText.ChunksDecode` | internal/app/grpcweb_text.go:72-107 | the concatenation of the padded encodings of any chunks decodes to the concatenation of the chunks, wherever padding occurs |
| `WebText.ShortcutsExactly` | internal/app/grpcweb_text.go:61-69 | the two shortcuts give what the general decoder gives on the trimmed body, unless the padded one accepts it although a line break stands between two pads, and only then they do not |
| `WebText.SplitPadding` | internal/app/grpcweb_text.go:61-69 | one byte whose two pads stand on two lines is decoded by the padded shortcut and refused by the general decoder |
| `WebText.BodyRoundTrip` | internal/app/grpcweb_text.go:55-107 | any chunks, encoded one by one with padding and sent in a row, are read back as one body, whatever Unicode spaces stand before and behind it |
| `WebText.Base64StreamWriter.Write` | internal/app/grpcweb_text.go:41-43 | what was written so far grows by the argument, up to two bytes are held back, and no byte sent is taken back |
| `WebText.Base64StreamWriter.Close` | internal/app/grpcweb_text.go:51-53 | after closing, the output is the encoding of all that was written, however it was cut into writes, and the request decoder reads it back |
| `BidiProxy.SideKeeps` | internal/app/grpc_proxy_stream.go:401-509 | every step of a forwarder keeps order, at most one message captured but not sent, closing only after the whole input was sent, and a single honest result |
| `BidiProxy.NextKeepsInv` | internal/app/grpc_proxy_stream.go:293-376 | every step of either forwarder, of the waiting caller, of the guard and of cancellation keeps the invariant of the whole call |
| `BidiProxy.Forwarding` | internal/app/grpc_proxy_stream.go:415-509 | in every interleaving requests sent are a prefix of prefetched ones and then received ones, responses sent are a prefix of those received, and capture is at most one message ahead of sending |
| `BidiProxy.CloseComesLast` | internal/app/grpc_proxy_stream.go:442-446 | CloseSend has been called only if the client's stream has ended and every request went out before |
| `BidiProxy.NoResultIsDropped` | internal/app/grpc_proxy_stream.go:394-399 | a forwarder posts exactly one result, when it is gone and not before, also after a panic, and the non-blocking send never loses it |
| `BidiProxy.ResultsAreReported` | internal/app/grpc_proxy_stream.go:350-376 | the call returns what both forwarders posted; only if the guard fired does it return nil for one of them: for the responses after an error of the requests, or for the requests when the response side was over |
| `BidiProxy.GuardExactly` | internal/app/grpc_proxy_stream.go:350-376 | the guard limits waiting if and only if the response side's result or an error of the request side has been taken; after a clean end of the requests, responses are awaited as long as they take |
| `BidiProxy.ResultsCanBeTaken` | internal/app/grpc_proxy_stream.go:353-376 | until the call has ended, a result of either side that is there can be taken, whatever the caller is waiting for |
| `BidiProxy.EveryExchangeCanPass` | internal/app/grpc_proxy_stream.go:293-376 | for any requests, prefetched and received, and any responses there is a run that ends cleanly with all of them passed on and captured |
| `BidiProxy.CleanEndIsTransparent` | internal/app/grpc_proxy_stream.go:339-350 | a call that ends without error, guard or cancellation has passed everything on in both directions, and the snapshots hold exactly that |
| `BidiProxy.SnapshotsStand` | internal/app/grpc_proxy_stream.go:343-348 | once taken, the snapshots never change and stay prefixes of what is captured; they are all of it unless the guard fired |
| `StreamCapture.StreamCaptureState.AppendResponseWithTiming` | internal/app/streaming_capture.go:38-59 | the captured contents are those of all arrivals so far, each object stamped with the time since the arrival before it |
| `StreamCapture.StreamCaptureState.AppendRequest` | internal/app/streaming_capture.go:27-36 | appends the request and leaves responses and timing alone |
| `StreamCapture.StreamCaptureState.Snapshot` | internal/app/streaming_capture.go:61-71 | both lists as they are, with the contents captured so far |
| `StreamCapture.StreamCaptureState.HasTimedResponses` | internal/app/streaming_capture.go:74-83 | true if delays are recorded and any response arrived, be it an object or not |
| `StreamCapture.WaitsTelescope` | internal/app/streaming_capture.go:46-58 | the recorded delays add up to the last arrival minus the start, less the gaps before responses that are not objects |
| `StreamCapture.ReplayIsOnTime` | internal/app/streaming_capture.go:46-58 | replaying the delays reaches every response at the moment it arrived if and only if each response that is not an object arrived together with the one before it |
| `StreamCapture.ReplayDrifts` | internal/app/streaming_capture.go:46-58 | one response that is not an object, five ticks after the start, is replayed too early |
| `StreamCapture.ServerReplay` | internal/app/grpc_mocker_stream.go:376-400 | a captured server stream replays on time as far as it gets, which is to its end if and only if every response is an object |
| `StreamCapture.ReplayIsNeverLate` | internal/app/streaming_capture.go:46-58 | with a clock that does not go back a replay is never late, and if it ends on time every response is on time |
| `StreamCapture.BufferProxyStreamMessage` | internal/app/grpc_proxy_stream.go:528-556 | the history entry holds the message as it arrived; it is the captured object itself unless capture marks that one |
| `StreamCapture.ReceiveAll` | internal/app/grpc_proxy_stream.go:83-137 | after the receive loop the captured buffer holds the same contents as the bidi recorder would, and history the first hundred objects as they arrived, unmarked although the buffers share objects |
| `StreamCapture.RecordBidiProxyHistory` | internal/app/grpc_proxy_stream.go:561-593 | history holds copies of the first hundred objects as they arrived, without the marker's key, and the captured messages keep theirs |
| `StreamCapture.HistoryIsUnmarked` | internal/app/grpc_proxy_stream.go:576-590 | removing the key from what was captured gives what arrived without that key, whether or not delays were recorded |
| `StreamCapture.HistoriesAgree` | internal/app/grpc_proxy_stream.go:528-590 | for the same arrivals the two recorders keep the same history if and only if none of the first hundred upstream objects has a field with the marker's name itself |
| `StreamCapture.HistoriesDiffer` | internal/app/grpc_proxy_stream.go:528-590 | for one upstream object with such a field they keep different histories |
| `ImportRoots.RelDecides` | internal/domain/protoset/transform.go:150-159 | the relative path escapes exactly if the first directory does not contain the second, and is the remainder otherwise |
| `ImportRoots.TextDecides` | internal/domain/protoset/transform_processor.go:157-164 | comparing spellings with a slash appended decides strict containment, and root joined with the remainder is the file |
| `ImportRoots.FindMinimalPaths` | internal/domain/protoset/transform.go:139-168 | the result lists exactly the roots that lie inside no other one, each once, shortest first |
| `ImportRoots.MinimalRoots` | internal/domain/protoset/transform.go:139-168 | minimal roots form an antichain, and cover exactly what all of them cover |
| `ImportRoots.MinimalAgain` | internal/domain/protoset/transform_processor.go:95-99 | minimising after each added root is minimising once at the end, so the order of adding does not matter |
| `ImportRoots.OneRootPerFile` | internal/domain/protoset/transform_processor.go:156-168 | at most one minimal root contains a given file |
| `ImportRoots.FindPathByImports` | internal/domain/protoset/transform_processor.go:149-171 | returns a root that contains the file if there is one, and only reorders the roots |
| `ImportRoots.Processor.constructor` | internal/domain/protoset/transform_processor.go:27-41 | the processor starts with minimised roots |
| `ImportRoots.Processor.AddImport` | internal/domain/protoset/transform_processor.go:82-105 | roots stay an antichain and cover what they covered and the new directory, nothing else |
| `ImportRoots.Processor.AddFile` | internal/domain/protoset/transform_processor.go:173-215 | a new file inside an added directory is recorded once, as a relative path that joined to the one root containing it gives the file; any other file is dropped |
| `DescriptorResolution.DecodeDescriptorFiles` | internal/app/rest_descriptors.go:109-156 | the rounds, as a function of the entries that are not nil, each as often as it is there and in order; on success exactly those files, none of them clashing; for files that do not clash, what is registered was built one file after the other, all of them on success and as many as can be otherwise |
| `DescriptorResolution.PresentTakesAll` | internal/app/rest_descriptors.go:113-117 | the files worked on are all entries but nil, each as often as it occurs, in their order |
| `DescriptorResolution.OneRound` | internal/app/rest_descriptors.go:120-138 | one round gives the files still waiting, in order, and the registry grown; or the path of the first file refused |
| `DescriptorResolution.OutcomeFrom` | internal/app/rest_descriptors.go:119-145 | from any state of the loop the outcome tells the truth about the whole input; a refusal names the path of a file that clashes with another one of it |
| `DescriptorResolution.RoundKeeps` | internal/app/rest_descriptors.go:120-138 | one round keeps the loop's invariant, and if it was in vain none of the pending files can be built |
| `DescriptorResolution.OrderDoesNotMatter` | internal/app/rest_descriptors.go:109-156 | every order of the input is accepted if and only if some order is and no files built one after the other take a name from one still to come: declare a name that it finds in a linked-in file, at a path that it does not import |
| `DescriptorResolution.SomeOrderExactly` | internal/app/rest_descriptors.go:109-156 | some order is accepted if and only if the files do not clash and can be built one after the other |
| `DescriptorResolution.UntakenOrders` | internal/app/rest_descriptors.go:109-156 | if no file takes a name from another at all, success is exactly that every file lies in the least fixpoint of "all references resolved" and no two clash |
| `DescriptorResolution.AcceptedExactly` | internal/app/rest_descriptors.go:109-145 | an upload in which no file takes a name from another is accepted if and only if no two files clash and there is no set of files each of which is ill-formed, or imports a path or uses a name that is found among that set only or nowhere |
| `DescriptorResolution.AcceptedIsLinked` | internal/app/rest_descriptors.go:120-138 | no accepted upload, whatever it takes, holds such a set |
| `DescriptorResolution.OrderMatters` | internal/app/rest_descriptors.go:109-156 | two files that are accepted in one order and refused in the other |
| `DescriptorResolution.TakenIsRefused` | internal/app/rest_descriptors.go:123-131 | once a file is registered that takes a name from a pending one, the rest is refused |
| `DescriptorResolution.BuildableGrows` | internal/app/rest_descriptors.go:123-131 | what can be built can still be built when more is registered, unless one of those takes a name from it |
| `DescriptorResolution.BuildableIsResolvable` | internal/app/rest_descriptors.go:126-138 | if no file takes a name, what can be built on top of resolvable files is resolvable |
| `DescriptorResolution.Stuck` | internal/app/rest_descriptors.go:140-142 | if none of the pending files can be built, the set is not fully resolvable, given that none clash or none takes a name |
| `DescriptorResolution.Registers` | internal/app/rest_descriptors.go:133-137 | registering keeps the invariant, and is refused only if the file clashes with another one of the input |
| `SchemaExpansion.MessageSchema` | internal/app/rest_schema.go:90-117 | terminates on every finite type graph, recursive or not, restores the visiting set, and returns the expansion of the type under the types being visited |
| `SchemaExpansion.ProtoFieldSchema` | internal/app/rest_schema.go:120-185 | the field's schema by shape (map, enum, message, scalar, and group, which gets neither a type name nor a nested message), with the visiting set restored |
| `SchemaExpansion.RecursionIsMarked` | internal/app/rest_schema.go:94-104 | no type is expanded twice along a path, and a node is marked recursive exactly where its type is already an ancestor |
| `SchemaExpansion.DepthBound` | internal/app/rest_schema.go:90-117 | no path is longer than the number of types |
| `SchemaExpansion.NodesAreComplete` | internal/app/rest_schema.go:106-184 | a node that is not recursive describes its type's fields: each field can be recovered from its schema, the kinds telling which other entries count, but for a synthetic oneof and the type of a group; entries are there exactly for fields of the kind they are about; each child is the schema of the type its field refers to |
| `SchemaExpansion.ExpandedExactly` | internal/app/rest_schema.go:90-185 | a type is expanded somewhere in the tree if and only if it can be reached without passing a group field |
| `SchemaExpansion.ReachableIsExpanded` | internal/app/rest_schema.go:90-185 | every reachable type is expanded if and only if every type behind a group field of an expanded type is also reachable without groups |
| `SchemaExpansion.NodesAreReachable` | internal/app/rest_schema.go:90-185 | every node's type is reachable from the root without passing a group |
| `SchemaExpansion.SchemaDeterminesExpanded` | internal/app/rest_schema.go:90-185 | two type graphs with the same schema for a type agree on all fields of all types reachable from it without groups, but for the types of groups |
| `SchemaExpansion.SameExpansion` | internal/app/rest_schema.go:90-185 | and agreeing on these is enough for the schemas to be the same |
| `SchemaExpansion.SchemaDeterminesTypes` | internal/app/rest_schema.go:90-185 | a type's schema determines the fields of every reachable type, but for the types of groups, if and only if every type behind a group field of an expanded type is also reachable without groups |
| `SchemaExpansion.SchemaIsLossless` | internal/app/rest_schema.go:90-185 | it determines them altogether, but for synthetic oneofs, if and only if no expanded type has a group field |
| `SchemaExpansion.GroupTypeIsLost` | internal/app/rest_schema.go:172-184 | two graphs that differ only in the type of one group field have the same schema, and that type is reachable but expanded nowhere |

## Left out

- Servers, TLS, middleware, telemetry, the command line, file walking, remote sources, plugin loading, templates, stub search and sessions: plumbing, or not self-contained algorithms.
- `ContainsIgnoreArrayOrder` and `MatchesIgnoreArrayOrder`: only the equality comparison is modelled; first fit is complete because equality is an equivalence, which containment and matching are not.
- Rank.RankMatch: takes scores as real numbers, so floating-point rounding of the bound is not modelled; values are JSON values without NaN and without the distinction of nil and empty containers, and the reflection branches for other map and slice types are left out.
- Prefilter.PrescreenSound: covers literals, classes, groups, anchors, alternation inside groups, and all quantifiers; inline flags, word boundaries and quoted spans are not in the grammar, and the syntax of a class is any text that starts with a dot, bracket or backslash.
- KahnOrder.Registry.AddPlugin: takes the owners of what is decorated as a list; parsing of decorations, duplicate warnings and the function tables are not modelled.
- DescriptorRegistry.Registry.Register: the generation is unbounded, so the wrap-around of a 64-bit counter is not modelled.
- DescriptorResolution.DecodeDescriptorFiles: a file uses full names from the files it imports directly; relative names, public imports, the kind of what a name stands for, and which of two versions of a file a reference is linked to are not modelled.
- HistoryStore.MemoryStore.RecordOwned: the size estimate is a parameter; its constants and depth limit are not modelled, nor is the clone made by `Record`, which values make unnecessary.
- Redaction.RunsTellNoSecret: service, method, session, error and code are never redacted by the program, so the runs must agree on them.
- HistoryPager.FilterWindow: limit plus offset is unbounded, so its overflow is not modelled.
- BidiProxy.Forwarding: a forwarder's capture and send are separate steps, but the time they take and the length of the guard are not modelled; without a capture state nothing is captured.
- StreamCapture.StreamCaptureState.AppendResponseWithTiming: the clock's zero value, which the program takes for "no response yet", is an option here; nested objects are values, as nothing mutates them.
- StreamCapture.RecordBidiProxyHistory: is one step; the requests of the record and its headers are not modelled.
- ImportRoots.FindMinimalPaths: paths are absolute and cleaned, as the program makes them; resolving them against the working directory, other separators than a slash, and sorting the caller's slice in place are not modelled. The order of equally long roots in `FindPathByImports` is one that its unstable sort may give.
- ImportRoots.Processor.AddFile: the file is not the root directory itself, which the program never adds as a file.
- StreamCapture.ServerReplay: only which responses a replay reaches and when; templates, error markers and the stub's own delay are not modelled.
- SchemaExpansion.MessageSchema: descriptors come linked, so a lookup cannot fail; cardinality labels are copied, not spelled.
