# Verified models of the RAG platform's core algorithms

The repository is a retrieval-augmented generation platform with role-based access
control. Most of it connects databases, language models and HTTP services. This project
models the algorithms in it whose promises hold over whole runs, and proves those promises
for all inputs. Foreign systems appear as parameters: a link graph, a clock, a scoring
function, a folder tree, a flag that says whether a call fails.

Each component has one file. The code that works step by step is a class or a method with
loops, proved against a specification; what the component is for is then proved about that
specification.

- `WebCrawler.dfy`: the queue-driven crawl with a link budget per entry and a cap of 200
  pages. A drained crawl visited exactly the pattern-passing pages within the budget. A
  capped crawl left out nothing nearer to the seeds than what it visited.
- `PipeList.dfy`, `Rbac.dfy`, `StoredMetadata.dfy`, `Documents.dfy`, `DocumentService.dfy`:
  access rules in their three forms (document check, query filter, SQL row predicate), the
  two string readings of stored metadata, and the service step that writes one access list
  to two stores with a rollback. The exact conditions under which the forms agree are proved.
- `RateLimiter.dfy`: the sliding-window limiter whose pruned log decides like a log that
  forgets nothing.
- `Bm25.dfy`: chunk store, id list and corpus kept in step, and the filtered top-k search.
- `Chunker.dfy`: the markdown chunker: which characters survive, how long chunks get, and
  where the text is cut.
- `Recurrence.dfy`: recurring-event expansion over Gregorian calendar arithmetic.
- `ConnectionManager.dfy`, `Interleaving.dfy`: the WebSocket registry with its two indexes,
  first step by step, then under every interleaving of suspended broadcasts with connects and
  disconnects. List objects have an identity there, since a broadcast keeps iterating over the
  list object it started with while `disconnect` puts a new one in its place.
- `ConversationMemory.dfy`, `ConversationInterleaving.dfy`: the sliding conversation memory over
  a store that fails and expires, first call by call, then with turns that overlap.
- `SmbCrawl.dfy`, `SharePointCrawl.dfy`: a depth-limited recursive listing, and a recursive
  walk over paged folders.
- `Migration.dfy`: the batched copy of all collections into one.
- `Percentile.dfy`: nearest-rank latency percentiles.
- `Text.dfy`, `Wrappers.dfy`: Python string and slice semantics, and stock datatypes.

## Where the code does not do what one expects

The code is modelled as it is, and each of these is proved: as an exact condition, or, for overlapping
turns and failed rebuilds, as what happens in each case.

- An internal document whose company id is `_no_match_` would pass the query filter of a user
  without a company but not the document check (`Rbac.BuiltinFilterAgreesWithCheck`). Company
  ids are generated UUIDs (src/models/company.py:15), which never equal that marker, so filter
  and check agree on every document that the platform itself creates.
- The document endpoints call the check without the document's company
  (src/api/v1/documents.py:325-331), so an internal document passes it only for its owner and
  administrators. Check and query filter then differ exactly for everyone else in the
  document's company (`DocumentServices.InternalCheckNeedsCompany`).
- A search in a collection combines access filter and collection under `$and`. The ChromaDB
  post-filter descends into both, but the keyword search skips an `$or` inside an `$and`, so it
  applies only the collection. The two agree exactly when no collection is asked for or the
  access filter is no disjunction (`StoredMetadata.KeywordAgreesExactly`).
- The scoped filter spells out the public and team clauses instead of asking the registry. With
  a narrower rule registered for either level, a team scope admits documents that the full
  filter denies (`Rbac.ScopeNarrows`, `Rbac.NarrowerRuleWidensScope`).
- `change_visibility` with a list left out keeps the old rows but stores an empty list in the
  vector store. Both stores then answer alike for every user exactly when the kept rows are
  harmless on the new level (`DocumentServices.AgreementForEveryUser`).
- `transfer_ownership` has no rollback: when its vector store call fails, the row has the new
  owner and the chunks the old one (`DocumentServices.DocumentService.TransferOwnership`,
  `DocumentServices.InStepAfter`).
- `_chunk_text` cuts a paragraph that is longer than a chunk and drops the rest
  (`Chunker.Conservation`), such as a word of 801 letters under the default limits
  (`Chunker.DefaultLimitsCut`), and keeps a short section that is longer than a chunk, after an
  empty one, when `min_section_chars` exceeds `max_chars + 1` (`Chunker.ChunksAlwaysFit`).
- The limiter reads the wall clock. A step of the clock leaves the next decision that of a full
  history, and every window within the limit, for all runs exactly when it does not go back
  (`RateLimiter.DecisionNeedsClock`, `RateLimiter.BoundNeedsClock`). The comment in
  src/main.py:408 speaks of 120 requests per window; the constant is 2000.
- `disconnect` removes the socket from one channel but from its user altogether, so the two
  indexes stay in agreement exactly when the socket is listed nowhere else
  (`Connections.DisconnectAgrees`). A socket that joins two channels and leaves one is a case in
  point (`Connections.TwoChannelsDisagree`), and the comment in `broadcast_all` foresees it.
- A conversation window of zero keeps everything, since the slice `[-0:]` is the whole list; a
  negative window loses the conversation (`ConversationMemories.WindowMustNotBeNegative`).
- Two turns of one session that overlap lose the one that is written first
  (`ConversationInterleaving.OverlapLosesTurn`); without such overlaps the promise holds
  (`ConversationInterleaving.ExclusiveIsWhole`).
- The daily, weekly and biweekly expansions compare the cursor with the window, not the start of
  the instance: an event at ten o'clock on the last day of a window that ends at midnight
  starts after it (`Recurrence.StartsWithinWindow`, `Recurrence.WindowIsExact`).
- `rebuild_index` replaces the ids before it builds the index. If that raises, the
  two fall out of agreement, except as stated for `Bm25.BM25Service.AddChunks` and
  `Bm25.BM25Service.RemoveDocument`. Any later rebuild that succeeds, and `clear_all`, restores it.
- `clear_all` says that it resets the index but leaves the id list as it was
  (`Bm25.BM25Service.ClearAll`); a search finds nothing all the same, since it asks for the
  index first.
- `list_accessible` leaves out other people's internal and channel documents that the document
  check lets through (`Documents.ListedIffAllowed`).

## Model

| member | source | states |
|---|---|---|
| WebCrawler.ListDocuments | src/connectors/web_connector.py:117-196 | At most 200 pages are requested, and fewer only if the queue ran empty. If it ran empty, the visited pages are exactly the pattern-passing URLs reachable from a normalised seed within the link budget by same-domain links of fetched, pattern-passing pages; in every case they are among these. Every visited page is a seed or on the host of one; if the queue ran empty, every link of a served page with budget left that stays on its host and passes the patterns was visited. Each page was first visited along a shortest route, and no left-out page within the budget is nearer than a visited one. The results are exactly the visited pages that were served with text, each once, nearest first, with the hash of their text. |
| WebCrawler.SeedUrlExact | src/connectors/web_connector.py:109-128 | A seed is stripped and, if it has no scheme, gets `https://`; then its slashes at the end go, and nothing else. |
| WebCrawler.TitleExact | src/connectors/web_connector.py:168-173 | A page is titled by its metadata, or else by the part of its URL behind the last slash, or else by the whole URL. |
| WebCrawler.Crawl | src/connectors/web_connector.py:135-189 | The loop stops, with an empty queue or 200 visited pages, in a state that satisfies the invariant of the breadth-first search, whatever the queue it starts from. |
| WebCrawler.FetchPage | src/connectors/web_connector.py:145-189 | A failed fetch changes nothing; otherwise a page with content is appended to the results, and links are queued only while the budget is positive, including for a page without content. |
| WebCrawler.ExtractFollowed | src/connectors/web_connector.py:186-189 | Queues, in order and with one link less to spend, the links that are unvisited and on the domain of the seed (not of the page). |
| WebCrawler.EnqueueSeeds | src/connectors/web_connector.py:126-128 | One entry per configured seed, in order, normalised, each its own origin with the full budget. |
| WebCrawler.SkipKeepsInv | src/connectors/web_connector.py:138-141 | Dropping an entry whose page was visited or fails the patterns loses no page that could still be reached. |
| WebCrawler.VisitKeepsInv | src/connectors/web_connector.py:143-189 | A visit keeps the queue sorted by budget over at most two levels, every entry on a real route from its seed, and every link of a visited page visited or queued with enough budget. |
| WebCrawler.CollectVisit | src/connectors/web_connector.py:168-183 | A visit keeps the results equal to the visited pages that have content, each once and nearest first. |
| WebCrawler.RouteFrontier | src/connectors/web_connector.py:135-189 | Along any route within the budget, either its end was visited with at least the budget the route leaves it, or the queue still holds an entry with that much budget. |
| WebCrawler.FirstVisitIsNearest | src/connectors/web_connector.py:135-189 | A page is first visited with the largest budget any route gives it: the links spent are its distance from the seeds. |
| WebCrawler.NothingNearerLeftOut | src/connectors/web_connector.py:135-189 | At every moment, an unvisited page within the budget is at least as far from the seeds as every visited one, and the queue is not empty. |
| WebCrawler.DrainedMeansComplete | src/connectors/web_connector.py:135-189 | With an empty queue, visited means reachable and vice versa. |
| PipeList.RoundTrip | src/services/document_service.py:52-56 | Splitting the stored list gives the list back, the empty list included, exactly when no id contains the delimiter. |
| PipeList.EncodeExact | src/services/document_service.py:52-56 | For ids without the delimiter, the delimited id is a substring of the stored list exactly when the id is in the list. |
| PipeList.WrappedExact | src/vectorstore/chroma_store.py:222-229 | The same test on the list wrapped in two more delimiters is exact too, but for the empty id, which it always finds. |
| Rbac.VisibilityRules.Register | src/core/rbac.py:156-158 | Adds a rule behind the others, or replaces the rule of a known level in its place; every other rule stays. |
| Rbac.VisibilityRules.BuildVisibilityFilter | src/core/rbac.py:191-211 | An administrator gets the filter that matches everything, anyone else the owner's clause followed by one clause per registered rule, in order. |
| Rbac.CheckMeaning | src/core/rbac.py:90-242 | Nobody passes without a user; every administrator and owner does; anyone else exactly if the document is public, internal to the user's own non-empty company, shared with one of the user's teams, or a channel or confidential document that lists the user. For anyone but an owner or administrator it raises exactly for a level without a rule. |
| Rbac.FilterAgreesWithCheck | src/core/rbac.py:191-242 | For any registry in which each rule's clause selects exactly the documents of its level that its check lets through, the filter matches a document if and only if the check passes; for anyone but the owner and administrators, a level that is not registered matches no filter and raises in the check. |
| Rbac.InternalExact | src/core/rbac.py:130-143 | The internal rule's clause and check agree exactly when the marker for "no company" is not the document's company. |
| Rbac.BuiltinExact | src/core/rbac.py:90-153 | All five built-in rules have clauses and checks that agree, exactly when there is no such clash. |
| Rbac.BuiltinFilterAgreesWithCheck | src/core/rbac.py:130-242 | With the built-in rules, filter and check give a user the same answer on a document exactly when the user is an administrator or the owner or there is no clash with the marker. |
| Rbac.RegisterKeepsExact | src/core/rbac.py:156-158 | Registering a rule whose two forms agree keeps the whole registry in agreement, and afterwards the check raises only for levels still unregistered, and never for owners or administrators. |
| Rbac.ScopedMeaning | src/core/rbac.py:161-184 | For any registry, a narrowing scope (one's own documents, or a team of one's own) selects exactly its documents, and any other scope, a foreign team included, what the full filter selects. As long as the rules for public and team documents are the built-in ones, the scoped filter selects exactly what is in the scope and matches the full filter. |
| Rbac.ScopeNarrows | src/core/rbac.py:156-184 | For any registry whose rules have two forms that agree: a scoped filter admits a document only if the full filter does, exactly unless the document is in a team scope, is not the user's own, the user is no administrator, and the rule registered for its level keeps the user out. |
| Rbac.NarrowerRuleWidensScope | src/core/rbac.py:156-184 | Such a registry: with public documents kept to the users they list, every team scope of every member admits other people's public documents that the full filter denies. |
| StoredMetadata.FlattenMeta | scripts/seed_neo4j.py:313-324 | The flat dictionary has the same keys, with lists in their delimited form and missing values as empty text. |
| StoredMetadata.FlattenedHolds | src/vectorstore/chroma_store.py:53-66 | Flattened access metadata holds every field of the typed metadata, in the form that the two readings expect. |
| StoredMetadata.FieldReadingAgrees | src/services/retrieval_service.py:17-43 | Both string readings of one stored field decide like the typed reading: equality for scalars, a shared element for lists. |
| StoredMetadata.ClauseReadingAgrees | src/vectorstore/chroma_store.py:218-242 | Both string readings of a clause of plain keys decide like the typed reading. |
| StoredMetadata.BuiltinReadingAgrees | src/services/retrieval_service.py:183-187 | For every user, the built-in filter by itself selects the same documents from stored strings, in either reading, as from typed metadata. |
| StoredMetadata.KeywordCombines | src/services/retrieval_service.py:174-189 | With a collection, the keyword search applies an access filter that is a disjunction not at all, and any other one together with the collection. |
| StoredMetadata.KeywordAgreesExactly | src/services/retrieval_service.py:174-244 | For every user, scope and optional collection: on every stored document the keyword search decides like the access filter and the collection, exactly when no collection is asked for, the scope is one's own documents, or an administrator asks without a team scope. |
| StoredMetadata.PostFilterCombines | src/vectorstore/chroma_store.py:194-216 | The ChromaDB post-filter applies access filter and collection together, whatever they are. |
| StoredMetadata.PostFilterAgrees | src/vectorstore/chroma_store.py:194-242 | For every user, scope and optional collection, it decides like the typed access filter and the collection. |
| Documents.DocumentRepository.SetTeamAccess | src/repositories/document_repository.py:95-103 | Replaces the document's team rows by the given list; a team listed twice is rejected and the transaction undone. |
| Documents.DocumentRepository.SetUserAccess | src/repositories/document_repository.py:105-113 | The same for the user rows. |
| Documents.MembersAfterWrite | src/repositories/document_repository.py:95-113 | After a list is rewritten, a query by document gives the new list for that document, in order, and the old list for every other one. |
| Documents.LevelsAreRegistered | src/models/document.py:13-18 | The visibility column accepts exactly the levels that have a built-in rule. |
| Documents.UniqueAfterWrite | src/models/document.py:175-207 | Rewriting a list with distinct members keeps every (document, member) pair unique. |
| Documents.ListedIffAllowed | src/repositories/document_repository.py:23-53 | Every row the listing admits passes the document check; for anyone but an administrator it admits exactly the rows that pass and are not somebody else's internal or channel document. |
| DocumentServices.VectorStore.UpdateMetadata | src/vectorstore/chroma_store.py:340-361 | After the call every chunk of the document reads the new value for each updated key and its old one for every other key, with its text unchanged; no other chunk changes, and a failing call changes none. |
| DocumentServices.DocumentService.ChangeVisibility | src/services/document_service.py:21-74 | The outcome in every case: unknown document, no right, rejected write, vector store error, other error, success. On success the document has the new level and the given lists and no other row changes; every chunk that was in step with its row still is, and what it now holds answers every user as the check on the new rows does, except whom kept rows let in; the change is audited with the old and new values. On a vector store error every query by document answers as before the call. Short of success no chunk changes and nothing is audited; after another exception the database writes stay. |
| DocumentServices.DocumentService.TransferOwnership | src/services/document_service.py:76-98 | The outcome in every case. On success row, chunks and audit entry name the new owner, and every chunk that was in step with the row still is. A failing vector store leaves only the row changed, and then, if any chunk was in step, they all still are exactly if the owner did not change. |
| DocumentServices.StoresAgreeAfter | src/services/document_service.py:42-58 | What a successful change writes to chunks and rows agrees for every chunk, user, company and reading, except for users whom kept rows let in. |
| DocumentServices.RollBackRestores | src/services/document_service.py:57-65 | Writing back the old level and both old lists undoes any change of them, whichever lists were given, for every document. |
| DocumentServices.AgreementAfterChange | src/services/document_service.py:42-58 | After a successful change, the built-in filter read from the stored strings (in either reading) and the check on the database rows agree for a user exactly when the user is an administrator or the owner, or the rows kept for a list that was not given do not let the user in. |
| DocumentServices.AgreementForEveryUser | src/services/document_service.py:42-58 | They agree for every user exactly when the rows that were kept say nothing on the new level; so always when both lists are given. |
| DocumentServices.InStepAfter | src/services/document_service.py:42-98 | Both operations leave owner and company of row and chunks in step; a transfer whose second write is lost does so exactly if the owner did not change. |
| DocumentServices.InternalCheckNeedsCompany | src/api/v1/documents.py:325-331 | Without the company in its metadata, an internal document passes the check exactly for its owner and administrators; so this check and the filter, which knows the company, agree exactly for these and for users whom the filter does not place in the document's company. |
| RateLimiter.RateLimitMiddleware.Dispatch | src/main.py:410-426 | Exempt paths are admitted and leave no trace; otherwise the client's log is pruned, and the request is refused and not logged if the limit is reached, or else admitted and logged. No other client's log changes. |
| RateLimiter.StoreSeesHistory | src/main.py:417-425 | Under a clock that never goes back, the pruned log and the log of everything ever admitted show the same recent requests, for every client after every run. |
| RateLimiter.DecisionsAgree | src/main.py:417-425 | Under such a clock every decision of every run equals that of a limiter that never discards a timestamp. |
| RateLimiter.HistoryBounded | src/main.py:418-425 | Under any clock, that unbounded limiter admits at most 2000 requests of a client in a window of 60 seconds open at its start and closed at its end. |
| RateLimiter.NeverTooMany | src/main.py:417-425 | In every run under a clock that never goes back, no such window ever holds more than 2000 admitted requests of one client. |
| RateLimiter.RefusedIffFull | src/main.py:413-425 | In every run under such a clock, a request is refused if and only if its path does not begin with `/api/v1/health` and the 60 seconds that end with it, open at their start, already hold 2000 admitted requests of its client. |
| RateLimiter.DecisionNeedsClock | src/main.py:416-425 | For any two readings: every run in which the clock steps from the first to the second, and did not go back before, decides the next request as the full history would, if and only if the second is not earlier. |
| RateLimiter.BoundNeedsClock | src/main.py:416-425 | For any two readings: in every such run every window of every client holds at most 2000 admitted requests, if and only if the second is not earlier. |
| Bm25.BM25Service.constructor | src/services/bm25_service.py:94-106 | The loaded store is kept; index and store agree, with no index if building the first one failed. |
| Bm25.BM25Service.RebuildIndex | src/services/bm25_service.py:175-185 | It raises exactly when an index is due and the library fails to build it, and then leaves the new ids beside the old index. Otherwise there is an index exactly when there are chunks and the library is there; its ids are the stored ids in order and its corpus is their tokenised text. |
| Bm25.BM25Service.AddChunks | src/services/bm25_service.py:135-150 | Chunks are stored in order and an existing id is overwritten in its place. If the rebuild succeeds, index and store agree, whatever came before; if it fails, they still agree exactly when there was no index or the tokenised texts are the same as before. |
| Bm25.BM25Service.RemoveDocument | src/services/bm25_service.py:152-164 | Exactly the chunks of the document are gone and the others keep their order. If the rebuild succeeds, index and store agree; if it fails, they agree only if there was no index. |
| Bm25.BM25Service.ClearAll | src/services/bm25_service.py:166-173 | The store is empty and there is no index, while the id list is left as it was; index and store agree, even if they did not before. |
| Bm25.BM25Service.Search | src/services/bm25_service.py:189-233 | It raises exactly when the index has fewer texts than there are chunks, and is empty without an index. The hits are stored chunks that pass the filter, each with its own text, metadata and score and each once; scores never rise along the list, with ties in index order; no chunk that passes and is left out would come before one of them; and there are `min(top_k, matching)` of them for a non-negative `top_k`. While index and store agree, the answer depends on the stored chunks only. |
| Bm25.RankingIsTopHits | src/services/bm25_service.py:203-233 | The hits built from the best candidates are such a list, for any scores, filter and `top_k`. |
| Bm25.TopResults | src/services/bm25_service.py:203-233 | The results all pass the filter, are ordered by falling score with ties in index order, everything that passes and is left out ranks below all of them, and there are `min(top_k, matching)` of them for a non-negative `top_k`; a negative one, as a slice bound, drops results from the end. |
| Bm25.CandidatesExact | src/services/bm25_service.py:206-218 | The candidates are exactly the positions that pass the filter, in index order, each with its score. |
| Bm25.SortRanked | src/services/bm25_service.py:221-221 | Sorting candidates in index order ranks the same candidates by score, ties in index order. |
| Bm25.MinusExact | src/services/bm25_service.py:154-161 | Deleting ids keeps exactly the others, each once. |
| Bm25.PutAllWritten | src/services/bm25_service.py:142-147 | An added id holds the text and metadata of the last chunk that came under it. |
| Bm25.PutAllFollows | src/services/bm25_service.py:142-147 | Stored ids keep their place, and new ones follow. |
| Bm25.WithoutExact | src/services/bm25_service.py:152-161 | Exactly the chunks whose metadata names the document are gone; the others keep text, metadata and order. |
| Bm25.AddThenRemove | src/services/bm25_service.py:135-164 | Adding chunks with unused ids for a document not yet present and then removing the document gives back the same store in the same order, hence every search result. |
| Chunker.ChunkText | scripts/seed_neo4j.py:150-200 | The loop over sections yields the chunks of the specification, for any limits. |
| Chunker.SplitLargeSection | scripts/seed_neo4j.py:160-173 | The loop over paragraphs packs them as specified, with the fallback for a section without paragraphs. |
| Chunker.Conservation | scripts/seed_neo4j.py:150-200 | The chunks, one after the other, hold the text's characters other than whitespace in order exactly when no section that must be split has a paragraph longer than a chunk. |
| Chunker.LongWordIsCut | scripts/seed_neo4j.py:160-173 | No limits avoid a loss: a single word longer than a chunk, and long enough for a section, loses characters. |
| Chunker.DefaultLimitsCut | scripts/seed_neo4j.py:150-173 | Under the default limits of 800 and 60, a word of 801 letters does. |
| Chunker.ChunksFit | scripts/seed_neo4j.py:150-200 | When a chunk has room for a character and `min_section_chars` is at most `max_chars + 1`, every chunk of every text has between 1 and `max_chars` characters. |
| Chunker.ChunksAlwaysFit | scripts/seed_neo4j.py:150-200 | That condition on the limits is exact: under any other limits some text has an empty chunk. |
| Chunker.ShortSectionTooLong | scripts/seed_neo4j.py:188-195 | A word longer than a chunk but shorter than a section is preceded by an empty chunk. |
| Chunker.NoRoomAtAll | scripts/seed_neo4j.py:160-173 | With no room for a character, one letter becomes an empty chunk. |
| Chunker.SectionIsChunk | scripts/seed_neo4j.py:178-187 | Every section of ordinary size is a chunk of its own. |
| Chunker.SplitLargeTight | scripts/seed_neo4j.py:160-173 | No two neighbouring parts of a split section would fit into one chunk together. |
| Chunker.SplitLargeIsGreedy | scripts/seed_neo4j.py:160-173 | The parts of a split section are its paragraphs, each cut to the size of a chunk, joined in order by blank lines: every part fits, and would not if it took one paragraph more. |
| Chunker.GreedyUnique | scripts/seed_neo4j.py:160-195 | There is only one such packing of a list of pieces. |
| Chunker.ShortSectionsMerged | scripts/seed_neo4j.py:188-195 | In any text, neighbouring short sections between two ordinary ones are packed in this way, their neighbouring chunks would not fit together, and their chunks stand between those of what precedes and of what follows. |
| Chunker.AllShortSectionsMerged | scripts/seed_neo4j.py:188-198 | If all sections are short, the chunks of the text are the packing of all of them. |
| Chunker.OrdinarySectionStandsAlone | scripts/seed_neo4j.py:178-187 | Under any limits, an ordinary section stands between the chunks of what precedes and of what follows it, whole if it fits and split if not. |
| Chunker.BlankTextIsChunk | scripts/seed_neo4j.py:200-200 | A text of nothing but whitespace is one chunk, cut to size; only the empty text has none. |
| Chunker.SectionsKeep | scripts/seed_neo4j.py:157-158 | Cutting into sections and stripping them loses no character but whitespace, and every section ends in one that is not. |
| Chunker.ParagraphsKeep | scripts/seed_neo4j.py:162-162 | Splitting a section into paragraphs and stripping them loses no character but whitespace. |
| Chunker.CutsAreHeadings | scripts/seed_neo4j.py:157-157 | A piece other than the first begins exactly where a newline precedes `# `, `## ` or `### `. |
| Chunker.PiecesAreRuns | scripts/seed_neo4j.py:162-162 | The non-empty pieces of the paragraph split are exactly the longest stretches without a run of two or more newlines. |
| Chunker.SeparatorExact | scripts/seed_neo4j.py:162-162 | These are the newlines that have another one next to them. |
| Recurrence.ExpandRecurring | scripts/seed_company_two.py:1566-1618 | For every cadence, the instances are exactly those of the days it means within the window, each once and in order, at the event's time and with its duration; an unknown cadence has none. |
| Recurrence.ExpandDaily | scripts/seed_company_two.py:1574-1579 | Exactly Monday to Friday among the days stepped from the window start. |
| Recurrence.ExpandWeekly | scripts/seed_company_two.py:1581-1588 | Exactly the days with the weekday among the days stepped from the window start. |
| Recurrence.ExpandBiweekly | scripts/seed_company_two.py:1590-1601 | Exactly every second of these, by the parity counted from the first; a parity other than 0 or 1 means no day. |
| Recurrence.ExpandMonthly | scripts/seed_company_two.py:1603-1616 | Exactly the first Fridays of all months whose start lies in the window, once each and in order; the loop ends, through any number of years. |
| Recurrence.FirstFriday | scripts/seed_company_two.py:1606-1608 | The search within a month stops on its first Friday, within its first seven days. |
| Recurrence.InstanceTimes | scripts/seed_company_two.py:1570-1616 | An instance starts on its day at the event's hour and minute, with no seconds, and ends as many minutes later as the event lasts. |
| Recurrence.CadenceDays | scripts/seed_company_two.py:1576-1598 | Daily means every day but Saturday and Sunday, weekly every seventh day from the first match, and biweekly every fourteenth, from the first or the second match by parity. |
| Recurrence.FridaysFrom | scripts/seed_company_two.py:1603-1616 | From the start of a month on, the first Fridays are that month's and those of later months: none is skipped, none comes twice. |
| Recurrence.MonthOrder | scripts/seed_company_two.py:1613-1616 | An earlier month is over before a later one begins, and the next month begins no later than any month after it. |
| Recurrence.StartsWithinWindow | scripts/seed_company_two.py:1574-1601 | For the daily, weekly and biweekly cadences, all instances start within the window exactly when those on its first and last day do, a condition on three times of day. |
| Recurrence.WindowIsExact | scripts/seed_company_two.py:1574-1601 | And the instances are exactly the cadence's starts within the window if and only if, besides, the last day has no start that the cursor stops short of. |
| Recurrence.MonthLength | scripts/seed_company_two.py:1613-1616 | The month that follows starts right after the last day, leap years and year ends included. |
| Recurrence.Epoch | scripts/seed_company_two.py:1576-1576 | The calendar is the real one: it counts 1970-01-01 as day 719163 and a Thursday. |
| Connections.ConnectionManager.Connect | src/services/chat_manager.py:21-25 | Appends the connection to the channel's list object in place, creating the channel if needed, and the socket to its user's list; nothing else changes. |
| Connections.ConnectionManager.Disconnect | src/services/chat_manager.py:27-39 | Puts a new list object without the socket in the channel's place, and drops the socket from the list of the user of its first entry, if it had one. |
| Connections.ConnectionManager.Broadcast | src/services/chat_manager.py:41-51 | Sends to the channel's entries in order, one send each, then disconnects the failed ones. |
| Connections.ConnectionManager.BroadcastAll | src/services/chat_manager.py:53-68 | Sends over the channels in order, skipping sockets already sent to, then disconnects each failed socket from the channel where it was first met. |
| Connections.ConnectAgrees | src/services/chat_manager.py:21-25 | A connect keeps each user's socket list equal, as a multiset, to the user's sockets over all channels. |
| Connections.DisconnectAgrees | src/services/chat_manager.py:27-39 | A disconnect keeps that agreement exactly when the socket is listed for its user in no other channel and for no other user in this one. |
| Connections.TwoChannelsDisagree | src/services/chat_manager.py:21-39 | From any registry whose indexes agree: a socket that connects to two channels leaves them in agreement, and its disconnect from one of the two does not. |
| Connections.ConnectKeepsInv | src/services/chat_manager.py:21-25 | Connecting a socket that is in no channel keeps every socket listed once and the indexes in agreement. |
| Connections.DisconnectKeepsInv | src/services/chat_manager.py:27-39 | A disconnect keeps every socket listed at most once and the indexes in agreement. |
| Connections.DropAllKeepsInv | src/services/chat_manager.py:50-51 | So does disconnecting any list of failed sockets. |
| Connections.DropAllExact | src/services/chat_manager.py:50-51 | After a list of failed sockets was disconnected, each channel lists exactly the entries not on it. |
| Connections.BroadcastOutcome | src/services/chat_manager.py:41-51 | An uninterrupted broadcast removes exactly the failing sockets from its channel, changes no other channel and keeps the indexes in agreement. |
| Connections.BroadcastAllOutcome | src/services/chat_manager.py:53-68 | An uninterrupted broadcast to all sends to every listed socket once; if every socket is listed once, it removes exactly the failing ones from every channel and keeps the indexes in agreement. |
| Connections.PresenceAgrees | src/services/chat_manager.py:73-81 | When the indexes agree, a user counts as connected exactly when online in some channel, and is then among all connected users. |
| Interleaving.IndexesAlwaysAgree | src/services/chat_manager.py:21-68 | In every state of every interleaving of connects, disconnects and broadcasts suspended at each send, the indexes agree, if no socket connects while it is in a channel. |
| Interleaving.ApplyKeepsInv | src/services/chat_manager.py:21-68 | Every single step keeps every socket listed at most once and the indexes in agreement. |
| Interleaving.NobodyMissed | src/services/chat_manager.py:41-68 | In every state of every run, without any condition, each broadcast that is over began at some step of the run and has since sent to everyone listed at that step in the channels it was meant for: to one channel in the list's order, each entry once; to all channels, no socket twice. |
| Interleaving.FailuresNoted | src/services/chat_manager.py:45-68 | In every run in which sends fail exactly for failing sockets, every broadcast, suspended or over, has noted exactly the failing ones among the sockets it sent to, each under a channel where it found it. |
| Interleaving.FinishDropsFailures | src/services/chat_manager.py:50-68 | The step that ends a broadcast removes exactly the entries it noted: no healthy socket leaves any channel, and every failing socket it sent to leaves one where it was listed, which is the broadcast's own channel if it has only one. |
| Interleaving.ConnectIsSeen | src/services/chat_manager.py:21-24 | A suspended broadcast also comes to those who meanwhile connect to the channel whose current list it reads. |
| Interleaving.DisconnectIsNotSeen | src/services/chat_manager.py:32-36 | It still comes to those who meanwhile disconnect. |
| Interleaving.ApplyKeepsTasks | src/services/chat_manager.py:41-68 | Every step of any task keeps what each suspended broadcast has delivered and still has to deliver in step with the list objects it holds. |
| ConversationMemories.ConversationMemory.AddTurn | src/services/conversation_memory.py:44-57 | Stores the trimmed history with the two messages behind it under the session's key; a failed read starts from nothing, a failed write changes nothing. |
| ConversationMemories.MemoryIsTail | src/services/conversation_memory.py:33-64 | In every session, after any whole turns, clears, expiries and failures, the stored history and what a reader gets are the last `window` messages of the transcript since the last fresh start; other sessions never show. A window of zero keeps it all. |
| ConversationMemories.StepKeepsTail | src/services/conversation_memory.py:44-64 | One event, of this session or another, keeps the stored history the tail of the transcript. |
| ConversationMemories.TranscriptAlternates | src/services/conversation_memory.py:50-51 | User and assistant alternate in every transcript, beginning with the user. |
| ConversationMemories.LatestTurn | src/services/conversation_memory.py:49-55 | After a written turn its two messages, in their roles, are the last ones stored, if the window has room for them. |
| ConversationMemories.WindowMustNotBeNegative | src/services/conversation_memory.py:33-57 | That a reader always gets the window's slice of the transcript holds for every run exactly when the window is not negative. |
| ConversationMemories.NegativeWindowForgets | src/services/conversation_memory.py:33-57 | With a negative window, equal turns however many leave a reader nothing. |
| ConversationInterleaving.ExclusiveIsWhole | src/services/conversation_memory.py:44-64 | In every run of turns suspended between read and write: if nothing changes a turn's session between its read and its write, the store is as after the same calls one after the other, in the order of the writes. A turn whose read or write failed needs no such condition. |
| ConversationInterleaving.ExclusiveMemoryIsTail | src/services/conversation_memory.py:33-64 | So the stored history is the tail of the transcript of these calls, in every session. |
| ConversationInterleaving.OverlapLosesTurn | src/services/conversation_memory.py:44-57 | When two turns of a session both read before either writes, the store is as if the one that is written first had never been, from any state. |
| SmbCrawl.ListDocuments | src/connectors/smb_connector.py:45-63 | Fails exactly when a directory within `max_depth` levels that listed directories lead to cannot be opened; otherwise lists exactly the files whose suffix is allowed on a route through readable directories at most `max_depth` levels below the root, with pairwise distinct paths on a well-named share. |
| SmbCrawl.Crawler.Crawl | src/connectors/smb_connector.py:132-196 | Appends the documents of a directory in order to what was collected before, skips what cannot be queried, and fails exactly when a directory it reaches cannot be opened. |
| SmbCrawl.DocsExact | src/connectors/smb_connector.py:132-196 | A descriptor is collected if and only if it has the path, name, URL, time and suffix of a file of allowed suffix that a route of names within the depth limit leads to. |
| SmbCrawl.PathIsSlashed | src/connectors/smb_connector.py:175-175 | The path of a file is that of the root and the names of its route, joined by single separators. |
| SmbCrawl.AbortsExact | src/connectors/smb_connector.py:152-159 | The crawl fails if and only if a route of names within the depth limit leads to a directory that cannot be opened. |
| SmbCrawl.PathsDistinct | src/connectors/smb_connector.py:171-196 | If siblings have distinct names without separator, no two collected files have the same path. |
| SmbCrawl.FetchContent | src/connectors/smb_connector.py:81-91 | The chunked read returns the file up to the first read that is answered with nothing, hence the whole file when there is none, and ends. |
| SharePointCrawl.Walk.FetchFolder | src/connectors/sharepoint_connector.py:97-113 | Appends the files of a finite paged tree to those collected before, and fails exactly when some request of the walk fails. |
| SharePointCrawl.FolderRoutes | src/connectors/sharepoint_connector.py:97-113 | The collected files are what the routes to all files of the tree lead to, those routes in depth-first page order. |
| SharePointCrawl.EveryFileOnce | src/connectors/sharepoint_connector.py:92-113 | Every file of the tree is listed exactly once. |
| SharePointCrawl.ListDocuments | src/connectors/sharepoint_connector.py:115-147 | Nothing at all if any request of the walk failed; otherwise the descriptors of the walk's files. |
| SharePointCrawl.DescribedExact | src/connectors/sharepoint_connector.py:124-145 | These are exactly the files of at most 52428800 bytes, each once and in order, with id, name (or id), link, date, and as hash the tag without quotes around it, or id and date if there is no more to the tag. |
| SharePointCrawl.ServedExact | src/connectors/sharepoint_connector.py:97-113 | The walk succeeds if and only if no positions lead through folders to a page whose request fails. |
| Migrations.Migration.ToPoints | scripts/migrate_chroma_to_qdrant.py:88-108 | One point per entry with an embedding, in order, its text in the payload. |
| Migrations.Migration.MigrateCollection | scripts/migrate_chroma_to_qdrant.py:77-120 | The batches visit every entry of the collection once, in order: the target is as after one upsert of all of it, and the count grows by the entries with embeddings. |
| Migrations.Migration.Migrate | scripts/migrate_chroma_to_qdrant.py:52-124 | The target is as after one upsert of all collections one after the other, and the total counts exactly their entries with embeddings. |
| Migrations.UpsertedIsOverlay | scripts/migrate_chroma_to_qdrant.py:104-114 | Under each id the target holds the last point written to it, or what it held before if none was. |
| Migrations.LastEntryWins | scripts/migrate_chroma_to_qdrant.py:88-114 | After all entries, each point holds the vector, the metadata and, under `text`, the text of the last entry with an embedding that goes to it. |
| Migrations.OtherPointsStay | scripts/migrate_chroma_to_qdrant.py:88-114 | A point that no such entry goes to stays as it was. |
| Migrations.RestartAt | scripts/migrate_chroma_to_qdrant.py:104-114 | A run after one that stopped after any number of points, or that was complete, leaves the target as one complete run does, ids written by several collections included. |
| Migrations.CountEmbedded | scripts/migrate_chroma_to_qdrant.py:89-115 | There are as many points as entries with embeddings. |
| Percentiles.NearestRank | src/repositories/audit_repository.py:232-234 | For a sorted list and 0 < pct <= 100, the percentile is the one element with at least n*pct/100 values at or below it and fewer than that strictly below it. |
| Percentiles.LatencyRanks | src/repositories/audit_repository.py:229-240 | The three reported values have the ranks of 50, 95 and 99 percent, and are zero without queries. |
| Percentiles.PercentileMonotone | src/repositories/audit_repository.py:232-234 | A higher percentage never gives a lower percentile, whatever the percentages. |
| Percentiles.LatenciesOrdered | src/repositories/audit_repository.py:220-240 | p50 <= p95 <= p99, and for no queries as well. |

## Left out

- HTTP, SMTP, Redis, SQL, ChromaDB, Qdrant and Neo4j clients: only the map, list, tree or failure flag they present.
- Language models, prompts, reranking, compliance patterns, authentication, telemetry, the frontend and declarative code (ORM models, schemas, migrations).
- Floating point: timestamps, scores and percentages are real numbers.
- WebCrawler.ListDocuments: `urljoin`, fragment stripping, regular expressions and text extraction are fixed functions of the URL, and a page answers the same way each time; a redirect is not told apart from the page itself.
- StoredMetadata.KeywordAgreesExactly: the filename filter, which only the vector search gets, is not modelled.
- StoredMetadata.BuiltinReadingAgrees: ids, and the team a scope names, are taken to be non-empty and free of the delimiter, as UUIDs are. Qdrant's and pgvector's readings of the filter are not part of this model, nor is ChromaDB's pre-filter, which the reading shown here follows.
- StoredMetadata.FlattenMeta: numbers and other scalars, which are stored as they are or as text, do not occur among the values.
- Documents.ListedIffAllowed: the predicate of one row; collection filter, `offset` and `limit` are not modelled.
- Documents.DocumentRepository.SetTeamAccess: foreign keys, generated row ids and the ORM's identity map are not modelled; a rejected flush takes the database back to the start of the transaction.
- DocumentServices.DocumentService.ChangeVisibility: the vector store either updates all chunks or none. The rollback restores the rows up to their order in the table. Its own writes are taken to reach the database.
- DocumentServices.AgreementForEveryUser: ids are taken to be non-empty and free of the delimiter, as UUIDs are, and the company's id not to be `_no_match_`, as no generated id is; the chunk's owner and company are in step with the row before the call, which DocumentServices.InStepAfter shows both operations keep.
- RateLimiter.RateLimitMiddleware.Dispatch: the section under the lock is one step, and the clock is read in the same step.
- Bm25.BM25Service.RebuildIndex: scores are a fixed function of corpus, query and position. Tokenising is a fixed function of the text. Writing the store to disk and reading it back are left out.
- Recurrence.ExpandRecurring: years are not bounded, so the `OverflowError` beyond year 9999 does not occur; the hour and minute are valid, as `datetime` demands.
- Interleaving.NobodyMissed: a send is one step with its outcome, and other tasks run between sends; a broadcast that is cancelled halfway is not modelled.
- Connections.PresenceAgrees: `online_users`, which lists display names, is not modelled.
- SmbCrawl.ListDocuments: the content hash, a digest of path and modification time, and the session are left out; a tree that changes during the crawl is not modelled.
- SharePointCrawl.Walk.FetchFolder: the tree and each folder's chain of next-page links are finite. Site and token requests are left out, and every item has its link, date and tag.
- Migrations.Migration.Migrate: exceptions, the creation of the target collection and its vector size are left out; entries carry metadata. `str(uuid.UUID(id))` and its name-based fallback are one fixed function of the id.
- Text.Strip: whitespace is Python's `str.isspace`; strings are sequences of characters, and lower-casing of suffixes is a fixed function.
- Event reminders, cost tracking, ingestion progress and connector size filters other than SharePoint's: they are not modelled.
