# A verified model of cinc-server-ng

cinc-server-ng is a Chef-compatible infrastructure server. This project models its hardest logic in Dafny and proves
what that logic is for. Integers are unbounded and strings are sequences of code points unless a module says otherwise;
where the 64-bit width matters (version components) it is written out. Code that updates state in loops or in objects
is modelled by methods and classes proved against a specification; code that computes is modelled by functions; and
protocols between threads are step systems (module `Runs`), with every interleaving of the steps allowed.

- **Groups.** `MemberKeys`, `GroupIndex`, `GroupCache`, `Membership`, `MembershipChanges`: membership rows and their
  keys, the reverse index and its queue loop, the cached index while writers run, the lock that orders membership
  changes against deletion, and what each handler leaves each group with.
- **Search.** `SearchDoc`, `Flatten`, `SearchIndex`, `IndexBuild`, `Query`, `QueryLexer`, `QueryParser`,
  `QueryMeaning`, `QueryGrammar`, `QueryLaws`, `Plan`, `Search`, `SearchBytes`, `StringOrder`: decoding, the merge of a
  node's attribute levels, flattening, the inverted index patched in place, its build while writers run, the query
  language, its round trip and its laws, planning against postings, and the agreement of the planned and the scanning
  answer, down to the stored bytes.
- **Store.** `WriteStream`, `GroupCommit`, `CommitLaws`: the event stream over the in-memory backend with nested
  transactions, group commit over a transactional database that may fail at any point, and the agreement of the two
  backends.
- **JSON.** `Json`, `JsonString`, `Decimal`, `FloatLayout`, `ChefJson`, `Normalization`, `JsonText`, `NumberMeaning`:
  the streaming normalizer equals parsing and marshalling, keeps what strings and numbers denote (subnormal doubles
  aside), and is idempotent on every text.
- **Run lists.** `RunList`: the canonical form, and the pre-check that decides whether a document is rewritten.
- **Actor keys.** `ActorKeys`: keys that live in two places behave as one map.
- **Cookbooks.** `Versions`, `Constraints`, `Cookbooks`, `Solver`, `Manifests`, `FileStore`: version order and
  constraints, the dependency closure of a run list, and the collection of file bodies nothing references.

Where a promise of the code holds only under a condition, the condition is proved exact and a lemma gives an input at
which the promise fails:

| promise | exact condition | failing input |
|---|---|---|
| a float keeps its value | `FloatLayout.LayoutDenotesValue` | `FloatLayout.LeastDoubleIsLost`, 5e-324 |
| a leaf is indexed under each joined suffix of its path | `Flatten.SuffixKeyIsJoin` | `Flatten.EmptyNameIsDropped`, a member with an empty name |
| planning is an optimization of matching | `Plan.Plan` | `Plan.BareExistsDiffers`, a document without fields |
| the match-all shortcut is a scan | `Search.Collection.CollectAll` | `Search.UndecodableIsListed`, a document that does not decode |
| a deletion's event reads back as that deletion | `WriteStream.UnnamedDeleteReadsAsDrop` | `WriteStream.UnnamedDeleteTakesNode`, a collection without a name |
| keys behave as one map | `ActorKeys.Actor.PutKey` | `ActorKeys.UnstoredRenameDiffers`, renaming a default that was never stored |
| `~>` fixes all but the last component | `Constraints.PessimisticExactly` | `Constraints.LargestComponentFails`, 9223372036854775807 |
| no group names what does not exist | `MembershipChanges.PostDanglesExactly` | `Membership.PostCanDangle`, a POST that names an absent client |
| a file some manifest names is kept | `FileStore.StepResolves`, `FileStore.RunResolves` | `FileStore.HugeNumberDangles`, an artifact with an integer of more than 400 digits |
| a file no manifest names is collected | `FileStore.LastReferenceTakesBody` | `FileStore.HugeNumberLeavesBody`, the same artifact |
| the stored form of a run-list item names the same cookbook | `Solver.QualifyKeepsCookbook` | `Solver.LeadingSpaceIsKept`, " apache2" |

Where a protocol needs its discipline, a run without it is built that goes wrong: `GroupCache.LockIsNeeded`,
`Membership.LockIsNeeded`, `IndexBuild.OverlappingWritesCanReorder`, `FileStore.RefusalIsNeeded`.

What stands outside is a parameter: lower-casing (`lc`), float parsing (`num`, `parse`), the MD5 of a body (`hash`),
which number literals a double can hold (`fits`, of which `FloatLayout.FitsDouble` is the real one), the clock and the
parsing of dates (`now`, `parseTime`), which thread runs next, which database calls fail, how the queue of writes is
cut into batches, and the order in which Go ranges over a map.

## Model

| member | source | states |
|---|---|---|
| `MemberKeys.MemberKeyRoundTrip` | internal/api/groupmembers.go:56-69 | reading a key gives a row exactly when the key was written for that row from NUL-free names; writing and reading are inverse |
| `MemberKeys.PrefixSelectsGroup` | internal/api/groupmembers.go:79-96 | the key-prefix test of clearMembers selects exactly one group's rows |
| `MemberKeys.SuffixSelectsActor` | internal/api/groupmembers.go:121-138 | the key-suffix test of removeMemberRows selects exactly the rows of that kind and actor |
| `GroupIndex.MembershipIsReachability` | internal/api/groupindex.go:124-151 | the least set holding an actor's direct groups and closed under nesting is exactly the groups reached by a chain, cycles included |
| `GroupIndex.GroupIndex.AddAll` | internal/api/groupindex.go:75-87 | adds exactly the edges of one group's document and no other |
| `GroupIndex.GroupIndex.AddOne` | internal/api/groupindex.go:91-109 | adds exactly one row's edge; a duplicate changes nothing |
| `GroupIndex.GroupIndex.Membership` | internal/api/groupindex.go:126-151 | the queue loop ends on cyclic nesting and returns the least closed set of groups |
| `GroupIndex.BuildGroupIndex` | internal/api/groupindex.go:44-72 | the index holds exactly the edges of the stored documents and rows, in whatever order they are listed |
| `GroupIndex.EdgesAreListed` | internal/api/groupindex.go:44-109 | what that index holds, by the documents and rows: a user exactly where a document lists it among users or a row of kind "users" names it, and so for clients and nested groups |
| `GroupIndex.MembershipIsBelonging` | internal/api/groupindex.go:124-151 | the membership it answers with is the groups reached by a chain over those lists and rows |
| `GroupIndex.GroupIndexCache.Get` | internal/api/groupindex.go:165-196 | answers with the installed index if its generation is the store's, otherwise with one exact for what is stored |
| `GroupIndex.GroupIndexCache.Observe` | internal/api/groupindex.go:202-223 | an added row is folded into the installed index in place; a deleted row drops it; other events leave it |
| `GroupIndex.GroupIndexCache.ActorGroups` | internal/api/groupindex.go:227-233 | given that an installed index of the current generation is exact, which `GroupCache.CurrentIndexIsExact` proves, the cached answer is the groups the actor belongs to by a chain over the stored documents' lists and the rows |
| `GroupIndex.ActorGroups` | internal/api/groupindex.go:237-243 | so is the uncached answer, without a premise |
| `GroupCache.RunKeepsInv` | internal/api/groupindex.go:165-223 | every interleaving of writers, reports and rebuilds keeps what ties the installed index to the store and the reports still pending |
| `GroupCache.CurrentIndexIsExact` | internal/api/groupindex.go:163-196 | in every state of every run without unreported writes, an installed index of the current generation has exactly the stored edges |
| `GroupCache.CachedMembershipIsExact` | internal/api/groupindex.go:225-243 | so the cached answer for an actor is the uncached one |
| `GroupCache.CachedMembersBelong` | internal/api/groupindex.go:225-243 | in every such state it is who belongs to what by the stored documents and rows |
| `GroupCache.LookupWasExact` | internal/api/groupindex.go:165-171 | a lookup that reads the index and compares generations later, with any steps between, answers with an index that was current when read: bounded by the rows then unreported, and exact if no write was under way |
| `GroupCache.LockIsNeeded` | internal/api/groupmembers.go:27-43 | without the membership lock a run ends quiescent with a current index that is not exact |
| `Membership.RunKeepsInv` | internal/api/groupmembers.go:27-43 | every interleaving of registrations, deletions and group writes under the lock, with POSTs that name only what exists, keeps the invariant behind the next rows |
| `Membership.NothingDangles` | internal/api/actor.go:571-624 | in every state of every such run, in the middle of whatever handler, no group document or row names a client or group that does not exist |
| `Membership.AbsentMeansUnnamed` | internal/api/authz.go:247-286 | a client or group that does not exist is named by no document and no row |
| `Membership.NewClientIsInNoGroup` | internal/api/actor.go:134-161 | right after a client is created nothing names it: a reused name inherits no membership |
| `Membership.LockIsNeeded` | internal/api/groupmembers.go:27-43 | without the lock a registration that overlaps a deletion leaves a row naming nothing |
| `Membership.PostCanDangle` | internal/api/authz.go:125-134 | a POST that names an absent client leaves it named, under the lock |
| `MembershipChanges.PostDanglesExactly` | internal/api/authz.go:125-134 | over every run, a POST that creates a group leaves every name existing if and only if each name it gives exists, its own included |
| `MembershipChanges.PutSetsMembers` | internal/api/authz.go:156-217 | over every run, from taking the lock to the write, a PUT gives the group, document and rows together, exactly the names of each kind in the body that exist and of the other kinds its earlier members that exist; no other group changes |
| `MembershipChanges.PostCreatesGroup` | internal/api/authz.go:104-139 | a POST of a new name gives the group exactly the members of the body, whatever rows the name had; no other group changes |
| `MembershipChanges.RegisterJoinsClients` | internal/api/actor.go:134-161 | a registration's row adds its client to the group "clients" and changes no other membership |
| `MembershipChanges.DeleteTakesTarget` | internal/api/actor.go:571-624 | over every run, a deletion leaves every group exactly its members other than the target, and of a deleted group nothing |
| `MembershipChanges.MembersAreIndexed` | internal/api/groupmembers.go:194-230 | the members spoken of here are those an index of the same documents and rows holds |
| `Membership.Keep` | internal/api/authz.go:332-356 | what knownGroupMembers keeps is exactly the names that exist |
| `Membership.Without` | internal/api/groupmembers.go:182-190 | what is left of a member list is exactly its other names |
| `Flatten.SuffixKeyIsJoin` | internal/search/flatten.go:18-37 | a key is the underscore-joined suffix of the path if and only if the last name is not empty or is the whole suffix |
| `Flatten.EmptyNameIsDropped` | internal/search/flatten.go:18-37 | the document with member "" inside "a" has exactly two terms, under "a" and "", and none under "a_" |
| `Flatten.TermsAreSuffixes` | internal/search/flatten.go:18-62 | a leaf is found under exactly the suffixes of its path, with its lower-cased value |
| `Flatten.LeavesInside` | internal/search/flatten.go:35-60 | an object's leaves are its members', each under its lower-cased name; an array's are its elements', under its own path |
| `Flatten.ScalarTerms` | internal/search/flatten.go:64-81 | a string or number is searched by its text, a boolean by its name, null by nothing |
| `Flatten.Walker.Add` | internal/search/flatten.go:18-62 | adds a leaf's terms and nothing else |
| `Flatten.Walker.Walk` | internal/search/flatten.go:18-62 | adds exactly the terms of the leaves under a value |
| `Flatten.Flatten` | internal/search/flatten.go:18-81 | the field map carries exactly the document's leaves under each suffix of their paths, and no field without values |
| `SearchIndex.CollIndex.Retract` | internal/api/searchindex.go:106-127 | removes exactly what one document contributed; no empty posting survives |
| `SearchIndex.CollIndex.Put` | internal/api/searchindex.go:68-95 | the index stands for the same documents with one replaced |
| `SearchIndex.CollIndex.Remove` | internal/api/searchindex.go:98-102 | the index stands for the same documents without one |
| `SearchDoc.FirstIsKept` | internal/chefjson/chefjson.go:200-215 | decoding keeps the first member of each name, decoded, and no other |
| `SearchDoc.DecodedRepeatsNothing` | internal/chefjson/chefjson.go:176-215 | a decoded document repeats no name at any depth |
| `SearchDoc.GetMerge` | internal/api/search.go:509-524 | what a name holds after a merge: the lower value, the upper one, or the merge of two objects |
| `SearchDoc.UpperWins` | internal/api/search.go:509-524 | at any path where the upper level holds something other than an object, the merge holds it |
| `SearchDoc.LowerShows` | internal/api/search.go:509-524 | at any path about which the upper level is silent, the merge holds what the lower one does |
| `SearchDoc.NodePrecedence` | internal/api/search.go:488-507 | at any path of names, what a node sets under automatic is what is searched; under override where automatic is open; under normal where those two are; under default where all three are |
| `SearchDoc.OwnMemberShows` | internal/api/search.go:499-506 | a name none of the four levels has is searched as the node itself has it |
| `SearchDoc.AutomaticIsIndexed` | internal/api/searchindex.go:51-65 | from the bytes of a node, an automatic attribute is among the terms under every suffix of its path |
| `SearchDoc.DeepMerge` | internal/api/search.go:509-524 | the loop computes that merge |
| `SearchDoc.NodeSearchDoc` | internal/api/search.go:492-507 | the levels merged in order and laid over the node's own members |
| `SearchDoc.PutRaw` | internal/api/searchindex.go:51-65 | from the stored bytes: a document that decodes to an object is indexed under exactly the terms of its searchable form, any other is removed, and no other document changes |
| `SearchIndex.CollIndex.Canonical` | internal/api/searchindex.go:25-127 | two valid indexes of the same documents have the same postings whatever the order of patches: incremental equals rebuilt |
| `IndexBuild.RunKeepsInv` | internal/api/searchindex.go:195-257 | every interleaving of builds, scans, writes, reports and drops keeps the build invariant |
| `IndexBuild.SettledKeysAgree` | internal/api/searchindex.go:195-257 | no write is lost by a build: a registered, unlocked index agrees with the store on every key no write is busy with |
| `IndexBuild.QuiescentIndexIsExact` | internal/api/searchindex.go:195-257 | with no write under way it is the index of the current contents |
| `IndexBuild.OverlappingWritesCanReorder` | internal/store/store.go:202-223 | two overlapping writes of one key can leave the index wrong for good: why the premise of one writer per key is there |
| `Plan.Intersect` | internal/search/plan.go:106-117 | the common ids, in a set the caller owns |
| `Plan.Union` | internal/search/plan.go:120-128 | the ids of either set, growing the larger in place |
| `Plan.Difference` | internal/search/plan.go:131-136 | the first set's ids without the second's |
| `Plan.CopySet` | internal/api/searchindex.go:138-144 | a set of its own with the same ids |
| `Plan.PostingsView.Exact` | internal/api/searchindex.go:148-150 | exactly the documents whose field holds the value, in a set that is none of the index's |
| `Plan.PostingsView.Exists` | internal/api/searchindex.go:152-154 | exactly the documents that have the field, likewise |
| `Plan.PostingIsExact` | internal/api/searchindex.go:148-150 | in a valid index a posting lists exactly the documents that carry its value |
| `Plan.MatchField` | internal/api/searchindex.go:156-166 | exactly the documents with some value of the field satisfying the predicate |
| `Plan.MatchAny` | internal/api/searchindex.go:168-180 | the same over every field |
| `Plan.PlanTerm` | internal/search/plan.go:47-57 | a term's ids are exactly the documents it matches |
| `Plan.PlanIds` | internal/search/plan.go:42-103 | the recursion, whose unions and differences change sets in place: the result is a set of its own and no set the index holds is changed |
| `Plan.Plan` | internal/search/plan.go:42-103 | for every query and every valid index the planned ids are exactly the documents the query matches, if and only if every document has a field or the query does not tell the two readings of a bare existence test apart; always so for what the parser accepts |
| `Query.PlannedExactly` | internal/search/plan.go:59-63 | the condition behind it, on the documents: planning takes an existence test without a field to hold of every document |
| `Plan.BareExistsDiffers` | internal/search/plan.go:59-63 | over one document without fields that test plans everything and matches nothing |
| `QueryLexer.Lex` | internal/search/query.go:257-354 | the loop ends on every input and yields the tokens of the grammar, end marker last |
| `QueryLexer.TextIsUnescapedGlob` | internal/search/query.go:303-328 | for every word the text is the pattern with its escapes resolved |
| `QueryParser.Parser.ParseOr` | internal/search/query.go:373-387 | the descent returns what the grammar's function gives at the same position, and leaves the parser where it ends |
| `QueryParser.Parser.ParseAnd` | internal/search/query.go:389-413 | the same for conjunction and juxtaposition |
| `QueryParser.Parser.ParseUnary` | internal/search/query.go:415-425 | the same for negation |
| `QueryParser.Parser.ParsePrimary` | internal/search/query.go:427-448 | the same for parentheses and clauses |
| `QueryParser.Parser.ParseClause` | internal/search/query.go:450-480 | the same for a field and its value |
| `QueryParser.Parse` | internal/search/query.go:24-38 | total on every input; whatever it accepts holds no existence test without a field, which is what planning needs |
| `QueryGrammar.ParsesBack` | internal/search/query.go:24-38 | every expression, written with parentheses only where NOT over AND over OR and association to the left demand them and AND spelled or left out, parses to the tree it was written from |
| `QueryGrammar.OrParses` | internal/search/query.go:373-413 | the same for tokens inside any token list, up to where a disjunction goes on |
| `QueryGrammar.TextLexes` | internal/search/query.go:257-354 | the text of words, phrases, ranges, signs and parentheses lexes to exactly those tokens |
| `QueryMeaning.NoWildcardMatchesItself` | internal/search/query.go:160-226 | a pattern without wildcards matches exactly one value, itself with its escapes resolved |
| `QueryMeaning.LiteralTermIsItsPattern` | internal/search/query.go:98-103 | comparing literally instead of by the pattern never changes which values match |
| `QueryMeaning.EscapesAreLiteral` | internal/search/query.go:228-354 | `field:` and any text with every character escaped selects exactly the documents carrying that text, lower-cased, under that field |
| `QueryLaws.NumericRange` | internal/search/query.go:131-153 | among numbers a range is the interval its brackets say |
| `QueryLaws.TextRange` | internal/search/query.go:131-153 | a value that is no number is compared as text |
| `QueryLaws.ExclusiveRange` | internal/search/query.go:131-153 | the exclusive range is the inclusive one without the values at its bounds |
| `QueryLaws.RangeSplits` | internal/search/query.go:131-153 | a range of numbers is the disjoint union of its parts at any number between |
| `QueryLaws.OpenRangeIsExistence` | internal/search/query.go:122-153 | a range open at both ends selects the documents that have the field |
| `QueryLaws.StarMatches` | internal/search/query.go:160-196 | a pattern u*v matches exactly u, a run without newlines, then v |
| `QueryLaws.QuestionMatches` | internal/search/query.go:160-196 | a pattern u?v matches exactly u, one character other than a newline, then v |
| `QueryLaws.StarSelectsExistence` | internal/search/query.go:198-226 | from the text, f:* selects the documents that have f and *:* every one |
| `QueryLaws.MinusIsComplement` | internal/search/query.go:450-480 | from the text, -f:w selects what f:w does not |
| `QueryLaws.BareWordIsAnyField` | internal/search/query.go:79-97 | escaped text without a field selects the documents that carry it under any |
| `QueryLaws.PhraseIsLiteral` | internal/search/query.go:198-226 | a phrase other than a lone star selects the documents that carry it under the field |
| `QueryLaws.ConnectivesSelect` | internal/search/query.go:40-64 | from the text, AND, OR and NOT are intersection, union and complement |
| `StringOrder.SortedIsUnique` | internal/api/search.go:163-206 | there is one way to list a set of matches in order |
| `StringOrder.FirstDifferenceDecides` | internal/api/search.go:204 | the order of ids is that of a dictionary |
| `StringOrder.Sort` | internal/api/search.go:163-206 | matches with distinct ids come back in id order, none lost |
| `Search.Collection.GetIndex` | internal/api/searchindex.go:201-233 | afterwards the index holds exactly the collection's contents |
| `Search.Collection.Put` | internal/api/searchindex.go:238-257 | a write patches the index to the new contents |
| `Search.Collection.Delete` | internal/api/searchindex.go:238-257 | and so does a deletion |
| `Search.Collection.SearchDocCached` | internal/api/search.go:106-113 | a hit is the flattening of the very bytes stored |
| `Search.Collection.SearchDoc` | internal/api/search.go:79-100 | cached or not, the answer is what the bytes flatten to; the cache stays truthful |
| `Search.Collection.CollectMatches` | internal/api/search.go:163-206 | the scan with its cache returns the answer: exactly the documents that match, sorted by id |
| `Search.Collection.FindMatches` | internal/api/search.go:565-582 | the planned path returns that same answer exactly when planning is exact, hence for every parsed query |
| `Search.Collection.FetchMatches` | internal/api/search.go:587-611 | both ways of fetching return exactly the planned documents still stored, sorted |
| `Search.AnswerIsUnique` | internal/api/search.go:561-582 | there is one answer, so the planned and the scanning path agree byte for byte |
| `Search.Collection.CollectAll` | internal/api/search.go:140-154 | every stored document, sorted; the answer of a scan if and only if every stored document decodes |
| `Search.UndecodableIsListed` | internal/api/search.go:140-154 | a single document that does not decode is listed by the shortcut and not by a scan |
| `SearchBytes.MatchesIsHolds` | internal/search/query.go:44-150 | whether a document matches a query depends on nothing but its terms |
| `SearchBytes.FlatteningExists` | internal/api/searchindex.go:51-65 | there is a flattening under exactly the terms putRaw indexes, for every lower-casing, merging levels or not |
| `SearchBytes.AnswerIsByBytes` | internal/api/search.go:83-99 | under any such flattening the answer of the scan, and of planning when it is exact, is the one the stored bytes determine, and planning is exact under a condition on the bytes |
| `WriteStream.Emitter.FlushTo` | internal/store/watch.go:85-93 | the buffered events are delivered once each, in order |
| `WriteStream.Store.Note` | internal/store/store.go:168-186 | one event per write, and the groups generation advances for group writes |
| `WriteStream.Store.Put` | internal/store/store.go:214-223 | the object is set and reported once |
| `WriteStream.Store.Create` | internal/store/store.go:202-211 | a conflict changes and reports nothing; otherwise as Put |
| `WriteStream.Store.Delete` | internal/store/store.go:257-266 | the object is removed and reported once; an absent one changes and reports nothing |
| `WriteStream.Store.DeleteOrg` | internal/store/store.go:117-126 | an existing organization loses all its objects in one event |
| `WriteStream.Store.Tx` | internal/store/store.go:139-152 | a failed transaction restores objects and organizations and reports nothing; a committed one reports its writes in order; transactions nest |
| `WriteStream.Store.Run` | internal/store/store.go:95-266 | replaying the events a run of operations reports, from where it started, gives the objects it leaves |
| `WriteStream.RunFromEmpty` | internal/store/watch.go:61-104 | so the whole stream replayed from nothing reproduces the store |
| `WriteStream.ReplayConcat` | internal/store/watch.go:61-69 | replaying two streams one after the other is replaying their concatenation |
| `WriteStream.UnnamedDeleteReadsAsDrop` | internal/api/searchindex.go:238-257 | a deletion in a collection without a name reads back as itself if and only if the organization held nothing else |
| `WriteStream.UnnamedDeleteTakesNode` | internal/api/searchindex.go:238-257 | one such deletion beside a node reads back as losing the node too |
| `GroupCommit.RunAlone` | internal/store/sqlite/sqlite.go:274-293 | one job in its own transaction is answered once, truthfully; a real error leaves the tables |
| `GroupCommit.RunIsolated` | internal/store/sqlite/sqlite.go:274-293 | the retried jobs refine one-at-a-time execution in order |
| `GroupCommit.ApplyAll` | internal/store/sqlite/sqlite.go:245-272 | the open transaction holds what running the jobs so far in order gives; it stops at the first real error |
| `GroupCommit.RunBatch` | internal/store/sqlite/sqlite.go:245-272 | whatever fails, each job is answered exactly once, the committed tables are those of running in order exactly the jobs answered without a real error, each answer and captured result is true at its place, and a job fails only for a fault of its own or because the batch could not begin at all |
| `GroupCommit.FailAll` | internal/store/sqlite/sqlite.go:297-301 | every job is answered with the failure and nothing changes |
| `GroupCommit.Loop` | internal/store/sqlite/sqlite.go:216-231 | however the queue is cut into batches the whole run refines one-at-a-time execution in queue order |
| `GroupCommit.TruthfulConcat` | internal/store/sqlite/sqlite.go:188-231 | two executions one after the other are one execution |
| `CommitLaws.StoredIsLastWritten` | internal/store/sqlite/sqlite.go:493-533 | after any truthful log a key holds the body last written with the answer nil, unless a deletion of it or of its organization followed |
| `CommitLaws.BlobIsLastWritten` | internal/store/sqlite/sqlite.go:591-668 | the same for file bodies, which an organization's deletion takes with it and no other's |
| `CommitLaws.AnswersFollow` | internal/store/sqlite/sqlite.go:493-668 | each answer follows from the ones before it: a create conflicts exactly on a held key, a deletion gives back what was held, and organizations report whether they were there |
| `CommitLaws.OneCreateWins` | internal/store/sqlite/sqlite.go:500-515 | between two creates of one key both answered nil a deletion of the key or its organization was answered nil |
| `CommitLaws.OnBoth` | internal/store/memory.go:35-175 | from the same objects and organizations the two backends give each object and organization write the same answer, the same body back and the same objects and organizations after |
| `JsonString.UnquoteEscape` | internal/chefjson/chefjson.go:396-429 | reading back what is written gives the string, for every string |
| `JsonString.CopyThrough` | internal/chefjson/chefjson.go:68-85 | a literal without escapes is already what would be written for it |
| `JsonString.NormalizeBodyIsEscape` | internal/chefjson/chefjson.go:68-85 | copied or decoded and re-escaped, a literal becomes the one encoding of the string it denotes |
| `JsonString.AppendString` | internal/chefjson/chefjson.go:400-429 | the loop over runs of plain characters appends exactly that encoding |
| `JsonString.ControlIsUpperHex` | internal/chefjson/chefjson.go:394-427 | a control character without a short escape is written with upper-case hexadecimal digits |
| `FloatLayout.LayoutDenotesValue` | internal/chefjson/chefjson.go:456-510 | read as an exact decimal, the literal written is the double's value if and only if the double is zero or at least 2^-1022 in magnitude |
| `FloatLayout.LeastDoubleIsLost` | internal/chefjson/chefjson.go:456-465 | 5e-324 is written as 0.0 |
| `FloatLayout.MagnitudeBounds` | internal/chefjson/chefjson.go:462-510 | a magnitude lies between its power of ten and the next |
| `FloatLayout.PlainExactlyInRange` | internal/chefjson/chefjson.go:456-510 | plain notation is used exactly for zero, the subnormals and magnitudes in [1e-6, 1e21) |
| `FloatLayout.LayoutIsFloat` | internal/chefjson/chefjson.go:433-510 | what is written for a double is a float again when read back |
| `FloatLayout.AppendFloat` | internal/chefjson/chefjson.go:462-510 | the buffer gains exactly the layout, the test against 2^-1022 made on the value |
| `ChefJson.NumberIsStable` | internal/chefjson/chefjson.go:433-445 | a normalized number normalizes to itself, a lost subnormal included |
| `ChefJson.DecodeToks` | internal/chefjson/chefjson.go:261-344 | decoding a document's tokens gives its tree and consumes exactly them |
| `ChefJson.Normalize` | internal/chefjson/chefjson.go:40-123 | the loop over a token stream, a stack and a buffer computes the machine the next rows are about |
| `Normalization.RunDoc` | internal/chefjson/chefjson.go:40-123 | from any stack and output, a document's tokens append exactly its text after the right separator, or fail if a number is out of range |
| `Normalization.PrintIsMarshal` | internal/chefjson/chefjson.go:346-394 | that text is what marshalling the tree gives |
| `Normalization.NormalizeIsMarshalParse` | internal/chefjson/chefjson.go:40-123 | for every document, and whatever follows it, Normalize is Marshal after Parse, with the same refusals |
| `JsonText.ReadPrinted` | internal/chefjson/chefjson.go:346-394 | a strict reader of JSON texts (RFC 8259) reads the text written for a document back to the document, whatever follows: separators, brackets and numbers are all well placed |
| `JsonText.LayoutIsNumber` | internal/chefjson/chefjson.go:456-510 | what is written for a double is a number by section 6 of RFC 8259 |
| `JsonText.TextIsMarshalParse` | internal/chefjson/chefjson.go:40-123 | for every text, Normalize is Marshal after Parse, with the same refusals |
| `JsonText.StoredIsFixed` | internal/chefjson/chefjson.go:38-123 | every literal of a stored document is in stored form |
| `JsonText.StoredPrints` | internal/chefjson/chefjson.go:38-123 | the stored document's text is what was written for the document as sent |
| `JsonText.NormalizeIsIdempotent` | internal/chefjson/chefjson.go:38-123 | for every text Normalize accepts, what it writes is a JSON text that Normalize accepts and leaves as it is |
| `NumberMeaning.IntegerIsKept` | internal/chefjson/chefjson.go:429-440 | every integer literal, at any size, is written as it came but for minus zero, and denotes what it did |
| `NumberMeaning.NormalizeKeepsMeaning` | internal/chefjson/chefjson.go:38-123 | for every text Normalize accepts, what it writes reads as the same document: the same structure, names and strings, every integer denoting what it did, every float denoting its double exactly when that is zero or normal |
| `JsonText.MarshalReads` | internal/chefjson/chefjson.go:346-440 | what is written for any tree with stored numbers reads back as that tree and normalizes to itself |
| `RunList.DistinctKeepsFirsts` | internal/runlist/runlist.go:22-33 | the canonical list has no duplicates and keeps the order of first occurrences |
| `RunList.CanonicalFixed` | internal/runlist/runlist.go:98-140 | a list is left as it is exactly when every item is qualified and none repeats |
| `RunList.CanonicalTwice` | internal/runlist/runlist.go:22-33 | canonical lists are fixed points |
| `RunList.CanonicalIsQualified` | internal/runlist/runlist.go:22-41 | every item of a canonical list starts with recipe[ or role[ and is an item given or a bare one wrapped |
| `RunList.ItemsAreKept` | internal/runlist/runlist.go:22-41 | and every item given is in it, as it was or wrapped |
| `RunList.Normalize` | internal/runlist/runlist.go:22-33 | the one-pass loop computes the canonical list |
| `RunList.ListFixed` | internal/runlist/runlist.go:136-140 | the pre-check on one value is exact: it reports a change exactly when the rewrite changes it |
| `RunList.EnvsFixed` | internal/runlist/runlist.go:142-155 | the same for the lists by environment |
| `RunList.NeedsChange` | internal/runlist/runlist.go:98-134 | the early-exit scan over the members decides whether the rewrite would change the document |
| `RunList.RewriteMeans` | internal/runlist/runlist.go:63-94 | member by member: the first run_list is made canonical, for a role so is every list of the first env_run_lists, and all else and the order stay |
| `RunList.RewriteFixed` | internal/runlist/runlist.go:56-134 | a document is left alone if and only if the pre-check is false; the rewrite leaves nothing to do and is idempotent |
| `RunList.NormalizeDoc` | internal/runlist/runlist.go:63-94 | on any text, parsed here: a document is rewritten and marshalled if a list needs it, otherwise the bytes are as they came, and on stored texts the two give the same bytes, which normalizing again leaves alone; a text that is no document is left or refused |
| `RunList.NormalizedIsStored` | internal/runlist/runlist.go:63-94 | on a stored text the bytes written are a stored text, read as the rewritten document, and are left alone when normalized again |
| `ActorKeys.Actor.CreateActor` | internal/api/actor.go:92-140 | a new actor's keys are the default made from its record, if it has one |
| `ActorKeys.Actor.UpdateActor` | internal/api/actor.go:498-554 | a body with a key replaces the default wherever it lives; one without keeps every key |
| `ActorKeys.Actor.DeleteActor` | internal/api/actor.go:605-614 | no key is left for a later actor of that name |
| `ActorKeys.Actor.AddKey` | internal/api/keys.go:266-335 | the map gains one key; a name in use, the record's default included, is refused and changes nothing |
| `ActorKeys.Actor.PutKey` | internal/api/keys.go:337-508 | it does to the map what was asked if and only if the request is not a rename of a default that was never stored; the state after it is given in both cases |
| `ActorKeys.Actor.Rename` | internal/api/keys.go:472-506 | the key answers to the new name only; a clash changes nothing |
| `ActorKeys.Actor.DeleteKey` | internal/api/keys.go:524-566 | the key is gone from both places, and only it |
| `ActorKeys.Actor.GetKey` | internal/api/keys.go:226-255 | the map's entry |
| `ActorKeys.Actor.SigningKeys` | internal/api/keys.go:60-81 | exactly the keys of the map that have not expired, each once |
| `ActorKeys.Actor.ListKeys` | internal/api/keys.go:171-220 | exactly the names of the map, each once, with whether it has expired |
| `ActorKeys.Actor.Run` | internal/api/keys.go:171-566 | over any run of requests the record and the rows stand for a state determined by the requests; it is one plain map's unless an unstored default was renamed; and a default that is gone stays gone until a request gives one |
| `ActorKeys.PlainRun` | internal/api/keys.go:171-566 | the plain-map part of that, on the specification |
| `ActorKeys.DefaultNeverResurfaces` | internal/api/keys.go:83-109 | the resurfacing part of that, on the state the record and the rows stand for |
| `ActorKeys.UpdateIsReadBack` | internal/api/keys.go:337-510 | after an update each field of the key is the one given or the one it had, under the new name if one is given, and no other key differs |
| `ActorKeys.KeysComeBack` | internal/api/keys.go:266-566 | adding a key and deleting it, or renaming it and back, leaves the keys as they were |
| `ActorKeys.SignsUntilItsDate` | internal/api/keys.go:39-81 | a name signs exactly when its key has no date, "infinity", or a date that parses and is still to come |
| `ActorKeys.NeverSignsAgain` | internal/api/keys.go:39-81 | a key that does not sign at one time never signs later |
| `ActorKeys.UnstoredRenameDiffers` | internal/api/keys.go:386-418 | for every account and every such rename, what is done differs from what a plain map would do |
| `Versions.CompareVersions` | internal/api/cookbooks.go:890-917 | the loop computes the comparison the next rows are about |
| `Versions.CompareIsLex` | internal/api/cookbooks.go:879-917 | on valid versions the result is -1, 0 or 1 as the zero-padded components are lexicographically below, the same or above |
| `Versions.CompareIsTotalPreorder` | internal/api/cookbooks.go:879-917 | reflexive, antisymmetric in sign, transitive, total |
| `Constraints.PessimisticMeaning` | internal/api/constraint.go:49-68 | `~> v` admits x if and only if x is at least v, agrees with it on every component but the last (on an only one), and the incremented component is below 2^63-1 |
| `Constraints.PessimisticExactly` | internal/api/constraint.go:49-68 | the documented meaning holds of v, for all x, if and only if that component can be incremented |
| `Constraints.LargestComponentFails` | internal/api/constraint.go:59-68 | "~> 9223372036854775807" does not admit its own version |
| `Constraints.HoldsIsMeaning` | internal/api/constraint.go:11-36 | every operator means what it says in the order on components |
| `Constraints.ConstraintMeaning` | internal/api/constraint.go:11-47 | with any spacing, the text is split into its operator and version and admits exactly what the operator means |
| `Constraints.AcceptedConstraint` | internal/api/constraint_valid.go:15-43 | every constraint a document may hold is such a text |
| `Cookbooks.SortVersions` | internal/api/cookbooks.go:301-319 | a permutation, newest first when every version is valid |
| `Cookbooks.VersionsAreListed` | internal/api/cookbooks.go:302-319 | a version is listed for a name exactly when its "name/version" key is stored |
| `Cookbooks.CookbookVersions` | internal/api/cookbooks.go:302-319 | every listed cookbook with exactly its versions, newest first |
| `Cookbooks.FilteredCookbookVersions` | internal/api/environment_subendpoints.go:63-82 | exactly the admitted versions in order, and no cookbook with none |
| `Cookbooks.FirstIsNewest` | internal/api/environment_subendpoints.go:61-82 | the first admitted version is one no admitted version is above |
| `Cookbooks.Available` | internal/api/environment_subendpoints.go:61-82 | a cookbook is available exactly when some stored version is admitted, and its first version is a newest such |
| `Solver.Solve` | internal/api/environment_subendpoints.go:262-303 | the worklist ends; it succeeds if and only if every non-empty name reachable through chosen manifests can be had, and then solves exactly their closure; otherwise it names a reachable cookbook that cannot |
| `Solver.ClosedWhenDone` | internal/api/environment_subendpoints.go:268-303 | an empty queue means the solved names are all that chains of dependencies reach |
| `Solver.EnvCookbookVersions` | internal/api/environment_subendpoints.go:240-304 | end to end: it succeeds if and only if every reachable name has a stored version the environment admits, and answers with the manifest of a newest one for each |
| `Solver.RecipeNamesCookbook` | internal/api/environment_subendpoints.go:393-405 | a recipe item names its cookbook, with or without a recipe |
| `Solver.QualifyKeepsCookbook` | internal/runlist/runlist.go:35-41 | the stored form of an item names the same cookbook if and only if the item is stored as it is, is empty, or starts with no space and either ends with none or has a "::" |
| `Solver.LeadingSpaceIsKept` | internal/api/environment_subendpoints.go:393-405 | " apache2" names apache2, and is stored as an item that names " apache2" |
| `Manifests.ChecksumsAreEverywhere` | internal/api/cookbooks.go:709-737 | a manifest's checksums are exactly the strings held as `checksum` by an object at some path, at any depth |
| `Manifests.ManifestChecksums` | internal/api/cookbooks.go:713-737 | the recursive walk collects exactly those |
| `Manifests.DependenciesAreThere` | internal/api/cookbooks.go:82-92 | a manifest depends on exactly the names at metadata, dependencies |
| `Manifests.ReadingsAgree` | internal/api/cookbooks.go:793-808 | on a manifest without repeated names, keeping the first or the last member finds the same checksums |
| `Manifests.RepeatsCanDisagree` | internal/chefjson/chefjson.go:153-198 | on one with repeated names they can differ |
| `FileStore.Store.ReferencedChecksums` | internal/api/cookbooks.go:741-766 | exactly the checksums of the stored manifests that decode; one with a number beyond a double is skipped |
| `FileStore.Store.GcOrphanedBlobs` | internal/api/cookbooks.go:772-788 | exactly the candidates no manifest that decodes names lose their bodies |
| `FileStore.Store.CollectFrom` | internal/api/cookbooks.go:605-611 | a dropped manifest that decodes offers its checksums, one that does not offers none |
| `FileStore.Store.AllUploaded` | internal/api/cookbooks.go:534-545 | true exactly when every checksum has a body |
| `FileStore.Store.PutFile` | internal/api/cookbooks.go:122-148 | stored only under its own checksum |
| `FileStore.Store.PutCookbookVersion` | internal/api/cookbooks.go:500-575 | refused without effect when it is no object, a name repeats or a body is missing; otherwise stored, and what the overwritten manifest named is collected if that decodes and nothing that decodes names it |
| `FileStore.Store.DeleteCookbookVersion` | internal/api/cookbooks.go:577-615 | removed, and what it named is collected if it decodes and nothing that decodes names it |
| `FileStore.Store.PutArtifactVersion` | internal/api/cookbook_artifacts.go:98-146 | an existing identifier is never overwritten; otherwise as a cookbook |
| `FileStore.Store.DeleteArtifactVersion` | internal/api/cookbook_artifacts.go:148-177 | removed, and collected from as a cookbook |
| `FileStore.Store.Run` | internal/api/cookbooks.go:500-615 | any run of requests ends where the specification says |
| `FileStore.PutIsReadBack` | internal/api/cookbooks.go:500-615 | after a PUT that is not refused the manifest is under its key until a later request on the key; after a deletion nothing is |
| `FileStore.ArtifactIsReadBack` | internal/api/cookbook_artifacts.go:98-177 | the same for artifacts, which a second PUT does not change |
| `FileStore.PutIsTaken` | internal/api/cookbooks.go:509-545 | a cookbook is refused exactly when it did not pass the validators, is no object, repeats a name, or holds at some path a checksum without a body |
| `FileStore.UploadIsThere` | internal/api/cookbooks.go:122-148 | an upload is taken exactly when the body has the checksum it is sent under, and is then there |
| `FileStore.StepResolves` | internal/api/cookbooks.go:534-615 | from a state in which every reference resolves, a request keeps it so if and only if each checksum of the dropped manifest, if that decodes, that a remaining manifest names is named by one that decodes |
| `FileStore.RunResolves` | internal/api/cookbooks.go:534-615 | after each request of a run every checksum in every stored manifest has a body and every body the checksum it is stored under, if and only if each request meets that condition where it comes |
| `FileStore.DecodableRuns` | internal/api/cookbooks.go:741-788 | a run that stores no number beyond a double meets it throughout |
| `FileStore.EveryFileIsThere` | internal/api/cookbooks.go:534-615 | after such a run a checksum at any path of any stored manifest, whichever decoder reads it, has a body of that checksum |
| `FileStore.HugeNumberDangles` | internal/api/cookbooks.go:756-759 | an artifact with an integer of more than 400 digits shares a file with another: deleting the other takes the file, and the artifact that is left names nothing |
| `FileStore.HugeNumberLeavesBody` | internal/api/cookbook_artifacts.go:167-168 | deleting that artifact leaves its file |
| `FileStore.LastReferenceTakesBody` | internal/api/cookbooks.go:768-788 | of the checksums a request takes the last name of, exactly those of a dropped manifest that does not decode keep a body |
| `FileStore.NoGarbage` | internal/api/cookbooks.go:768-788 | over every run, a body nothing names was not named before it, or some request left it behind in that way |
| `FileStore.DecodableLeavesNothing` | internal/api/cookbooks.go:768-788 | none does where no manifest holds a number beyond a double |
| `FileStore.RefusalIsNeeded` | internal/api/cookbooks.go:793-808 | were repeated names accepted, the upload check would pass a manifest whose reference dangles |

## Left out

- HTTP, TLS, metrics, signing and cryptography, ACL policy and the filtering of results by it: plumbing around the modelled logic.
- The SQL engine, the JSON decoder library, the regular-expression engine and the shortest digits of a double: taken as given. `GroupCommit` treats the database as tables that commit, roll back or fail; `JsonText` states what a JSON text reads as; `GlobMatches` states what a compiled wildcard matches; `FloatLayout` starts from the shortest digits.
- Invalid UTF-8: strings are code points, where the query lexer and the JSON code work on bytes.
- Per-field validators of actors, groups, cookbooks and key names; a request here is one that passed them, or `None`. Filling in a manifest's defaults happens before `FileStore` sees it.
- I/O errors of the store inside the modelled handlers, apart from `GroupCommit` and from handlers that stop early in `Membership`.
- Wrap-around of the 64-bit groups generation.
- Group-cache behaviour on deleting an organization and for group writes inside a store transaction.
- Shutdown of the write queue with jobs still queued.
- What a refused group POST leaves behind, and whether a group PUT can undo a concurrent deletion: neither is claimed. Membership of users, and access-control entries, are not in the dangling-name invariant.
- `compareVersions` on versions with a segment that is no integer: the comparison is modelled, but no order is claimed for it.
- Two cookbook handlers interleaving: each is one step in `FileStore`.
- `_latest` in cookbook URLs: a request names the version it resolves to.
- The parallel flattening of cache misses: its result does not depend on order. `Search` takes the flattening of bytes as a function; `SearchBytes` ties it to what `SearchDoc.PutRaw` indexes.
- Search over several collections: `Search` models one collection, its index and its cache.
- File bodies in `WriteStream`: they are not part of the event stream.
- The pagination and listing endpoints (`num_versions`, `rows` and `start`, the `_latest` and `_recipes` listings): each slices or formats a list modelled here and has no state of its own.
- Flatten.Flatten: takes the decoded document; `SearchDoc.PutRaw` is the path from the bytes.
- Plan.Plan: the source's second result, for a query kind it cannot plan, is not modelled since every kind is planned.
- SearchIndex.CollIndex.Put: takes a field map without empty fields, which `Flatten.Flatten` guarantees, and patches postings that are values; that the sets of different postings are different objects is not captured there, only for planning (`Plan.PostingsView`).
- IndexBuild.SettledKeysAgree: assumes that no two writes of one key overlap; `IndexBuild.OverlappingWritesCanReorder` shows why. It speaks of the registered index, not of one a failed build has withdrawn and an earlier caller still holds.
- GroupCache.CurrentIndexIsExact: speaks of states in which every landed write has been reported; `GroupCache.LookupWasExact` bounds the others.
- QueryMeaning.EscapesAreLiteral: assumes of lower-casing only that it leaves `*`, `?` and the backslash alone and makes no other character one of them.
- RunList.NormalizedIsStored: makes the assumption on float parsing of the next line.
- JsonText.NormalizeIsIdempotent: assumes of float parsing that a literal denoting the shortest digits of a double reads as that double, and one denoting zero as zero.
- ActorKeys.Actor.ListKeys: the order of the listed names is not modelled beyond the default made from the record coming first.
- ActorKeys.Actor.AddKey: takes the public key of the body or the one generated for it, never an empty one.
- WriteStream.Store.Run: the replay claim leaves out deletions in a collection with an empty name, which the server never makes; `WriteStream.UnnamedDeleteReadsAsDrop` gives the exact condition.
