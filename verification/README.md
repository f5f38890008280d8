# Browser shell: verification model

A Dafny model of the parts of the browser shell where state, ordering and hand-written text code decide
whether a page is right, with proofs that hold for every input and every run.

* **The in-memory HTTP cache** (`cache.rs`). `FieldValues`, `FieldScanner`, `HeaderLists`, `CacheControl` and
  `HeaderMerge` hold the header parsers: each one is a loop proved equal to a reference definition, with laws about
  that definition. `ContentTypes` reads the content type that a merge recomputes. `CachePolicy` decides what may be
  stored and which requests a stored response answers. `CacheMeaning` and `CacheAdmission` say what these decisions
  mean in terms of the characters of URLs and header lines, without naming the functions that make them. `RecencyList`
  is the cache as one list, most recently used first, without buckets, stamps or counters; `RecencyLaws` and
  `CacheRuns` prove what that list keeps over single operations and whole histories. `Buckets` and `HttpCache` are the
  real thing: the class `HttpCaching.HttpCache` updates a map of buckets, a byte counter, an access clock and an epoch
  in place, and every method is proved to do to the list exactly what the list's own operation does. `FetchEpochs`
  puts transfers on top of it that complete late, in any order, around a clear; the class in `FetchFrontend` makes
  them.
* **Rendering one tab** (`app.rs`, `worker.rs`, `page_state.rs`). `RenderLog` says what a legal history of coalesced,
  submitted, installed and dropped frames is. `RenderModel` is the coordinator with its two workers as a state machine
  in which the workers move on their own; `RenderLaws` proves that every run yields a legal history, `RenderFrames`
  that the right frames are shown and that frames asked for are. The class in `RenderPipeline` is the coordinator
  itself, method by method, on the tab's fields.
* **Scripts behind stylesheets** (`app.rs`). `ScriptGate` models discovery, the pending and the held batch, module
  rounds and the flush when the stylesheets arrive as a step relation; the class in `ScriptCoordinator` takes these
  steps, and its scanning loop is proved to end.
* **Transfers for pages** (`app.rs`, `cors.rs`). `PageFetch` models submission, the preflight and response stages and
  the settling loop; `PageFetchLaws` and `PageFetchDocuments` prove what holds over every run. `PageFetchCaching` puts
  the cache between the transfers and the network; `UnaskedNotModified` is a run of it. The CORS rules are functions
  the results do not look into.
* **The span lexer** (`check_site_neutrality.py`). `SpanLexer` holds a token-by-token meaning of a source text and the
  character-by-character machine proved to compute it; `SpanLexerLaws` proves that this meaning is the only reading of
  the text under a grammar of comments and literals, and that no character is lost.
* **Text controls and forms** (`content_interaction.rs`). `DomTree` is the node arena with its preorder;
  `ContentInteraction` holds the walks with an explicit stack, `ContentEditing` the writes.

Run `dafny verify dfyconfig.toml` in this directory to check everything. `Text` and `HttpTypes` hold shared helpers.

## Where the code and its documentation differ

The model follows the code. Each difference is stated as a lemma where it changes what holds.

* `normalize_field_value` treats repeated lines and one combined line alike only when the earlier value closes its
  quotes, and for no other value: `FieldValues.CombinesExactlyWhenClosed`, with a concrete failing pair in
  `FieldValues.NormalizedJoinNeedsClosedQuotes`.
* A `304` that answers a stale entry yields a body only if the new expiry can be represented as an instant; otherwise
  nothing changes and nothing is returned: `RecencyLaws.MergeOutcome`, and `LongLifetimes.LongLifetimeFailsTheMerge`
  for histories that lead there.
* `merge_not_modified` is documented to return nothing when the refreshed directives make the response unsafe to
  retain. It returns the merged response then, and removes the entry: `RecencyLaws.MergeOutcome`.
* `settle_fetch` is documented to ignore ids of a page that has navigated, but every document counts its ids from one
  again and transfers are not cancelled on navigation, so a late answer can settle a request of the next document.
  `PageFetchDocuments.ReplacementIsSafeIff` gives the exact condition, and
  `PageFetchDocuments.AnotherPagesResponseIsSeen` a run in which a script reads what CORS refuses its document.
* Page transfers are submitted through the cache but not finished through it. A page that asks unconditionally can so
  be handed a bare `304`: `PageFetchCaching.UnaskedNotModifiedIff` says exactly when, and
  `UnaskedNotModified.APageIsHandedANotModified` gives a run.
* A same-origin page request carries cookies whatever its credentials mode, `omit` included:
  `PageFetchLaws.PagesSendOnlyWhatTheyMay`.
* A navigation that starts cancels the pending or held script batch of the document still on show. If that document
  stays, as it does for a traversal between its own history entries or beyond their end, the scripts of the batch
  never run, because they already count as started. `ScriptGate.CancelLosesExactlyTheWaiting` says exactly which
  scripts that are, and `ScriptGate.AScriptIsLost` gives a run that loses one.
* The lexer's description says that a span crossing a newline is recorded against the line it starts on. The code
  splits such a span and files each part under its own line: `SpanLexerLaws.LexIsFaithful`.
* The lexer claims to recognise raw strings and character literals. A raw string without hashes is read like an
  ordinary one, escapes included, and of an escaped character literal the wrong character is dropped.
  `SpanLexerLaws.RawStringIsReadIff` and `SpanLexerLaws.CharLiteralIsReadIff` say exactly when they are read right;
  `SpanLexerLaws.BareRawStringEscapes` and `SpanLexerLaws.EscapedCharacterIsDropped` are the shortest failures.

## Model

| member | source | states |
|---|---|---|
| FieldScanner.NormalizeFieldValue | crates/render-browser/src/cache.rs:648-681 | the one-pass scanner returns the members between top-level commas, each trimmed, rejoined by commas |
| FieldValues.NormalizedMembers | crates/render-browser/src/cache.rs:648-681 | splitting a normalised value at its top-level commas gives the trimmed members of the original |
| FieldValues.NormalizedTwice | crates/render-browser/src/cache.rs:648-681 | normalising is idempotent |
| FieldValues.NormalizedJoin | crates/render-browser/src/cache.rs:619-681 | if a value closes its quotes, normalising it joined with another equals joining the normal forms (sections 5.3 and 5.6.1 of RFC 9110) |
| FieldValues.CombinesExactlyWhenClosed | crates/render-browser/src/cache.rs:619-681 | a value combines that way with every other value if and only if it closes its quotes |
| FieldValues.NormalizedJoinNeedsClosedQuotes | crates/render-browser/src/cache.rs:648-681 | a concrete value with an open quote for which that equality fails |
| FieldValues.NormalizedOws | crates/render-browser/src/cache.rs:648-681 | optional whitespace added at either end never changes the normal form |
| FieldValues.NormalizedKeepsQuotedText | crates/render-browser/src/cache.rs:648-681 | beyond the end trim only unquoted optional whitespace is deleted; quoted text is copied verbatim |
| FieldValues.NormalizedTight | crates/render-browser/src/cache.rs:648-681 | no optional whitespace is left at the ends or next to an unquoted comma |
| FieldValues.JoinMembers | crates/render-browser/src/cache.rs:648-681 | splitting at top-level commas loses nothing: joining the members gives the value back |
| HeaderMerge.MergeHeaders | crates/render-browser/src/cache.rs:741-769 | folding update lines in one by one, with an insert index always in range, computes a single-pass reference |
| HeaderMerge.MergedIsReference | crates/render-browser/src/cache.rs:741-769 | for all inputs, line-by-line replacement equals keeping each updated name at its first place with its last update and appending the new names |
| HeaderMerge.ReplaceBySplice | crates/render-browser/src/cache.rs:754-766 | retaining the other lines and inserting at the first position is the same as replacing in place |
| HeaderMerge.MergedLines | crates/render-browser/src/cache.rs:741-769 | an updated name ends with exactly its last usable update line; every other name, content framing included, keeps all its lines (section 3.2 of RFC 9111) |
| HeaderMerge.MergedUntouched | crates/render-browser/src/cache.rs:741-769 | the stored lines no update touches keep their relative order |
| HeaderMerge.MergedTwice | crates/render-browser/src/cache.rs:741-769 | merging the same update again changes nothing |
| HeaderLists.ParseVary | crates/render-browser/src/cache.rs:580-606 | the loop with early returns, duplicate check and final sort yields the reference selector list |
| HeaderLists.VarySelectorsMeaning | crates/render-browser/src/cache.rs:580-606 | None exactly when a line is not text or a member is `*` or no token; otherwise the strictly sorted lowercase names, exactly those listed |
| HeaderLists.VaryOrderIndependent | crates/render-browser/src/cache.rs:580-606 | order, repetition and line layout of members do not matter |
| HeaderLists.SortedUnique | crates/render-browser/src/cache.rs:603-605 | a strictly sorted selector list is determined by its set of names |
| HeaderLists.ItemsLineSplit | crates/render-browser/src/cache.rs:580-606 | two lines of a list field mean the same as one line joined by a comma |
| CacheControl.ParseCacheControl | crates/render-browser/src/cache.rs:796-851 | the loop over lines and directives returns the policy of the item list, refusal reason included |
| CacheControl.StoreMeaning | crates/render-browser/src/cache.rs:796-851 | a lifetime is granted if and only if it is positive, some directive asks for it, and every directive is harmless or asks for the same |
| CacheControl.StoreOrderIndependent | crates/render-browser/src/cache.rs:796-851 | whether and for how long a response is stored does not depend on order, repetition or line layout of directives |
| CacheControl.PolicyLineSplit | crates/render-browser/src/cache.rs:796-851 | splitting a line in two decides the same, down to the reason of a refusal |
| CacheMeaning.LifetimeMeaning | crates/render-browser/src/cache.rs:796-851 | a lifetime is granted exactly by the text of the lines: every line is text; every stretch between commas that is not blank names neither `no-store`, `private` nor `no-cache` in any case, and if it names `max-age` its value writes this number; and some stretch does |
| CacheMeaning.RefusalMeaning | crates/render-browser/src/cache.rs:796-851 | a line that is no text, a member that names one of those directives, or a `max-age` whose value is no number: no lifetime, whatever else stands there |
| CacheMeaning.DigitsMeaning | crates/render-browser/src/cache.rs:834-838 | digits are read from left to right in base ten |
| CacheMeaning.OnlyDigitsAreDigits | crates/render-browser/src/cache.rs:834-838 | nothing but the ten ASCII digits counts as a digit |
| CacheMeaning.BlankCharacters | crates/render-browser/src/cache.rs:812-816 | what is trimmed off a directive is Unicode white space, and off a field name in `Vary` spaces and tabs |
| CacheMeaning.VaryMeaning | crates/render-browser/src/cache.rs:580-606 | a response has selectors exactly if every `Vary` line is text and names only fields made of visible characters other than delimiters (section 5.6.2 of RFC 9110), and not `*`; the selectors are those names in lower case |
| CachePolicy.DecidePolicy | crates/render-browser/src/cache.rs:456-485 | the admission decision with its reasons, in the source's order, by running the parsers |
| CachePolicy.CombineHeaderValue | crates/render-browser/src/cache.rs:619-642 | the combined, normalised request value of a field, absent kept apart from empty, with the transport's `Accept` as fallback |
| CachePolicy.CaptureVariant | crates/render-browser/src/cache.rs:526-537 | the selecting names of a response with this request's values |
| CachePolicy.MatchesMeansAgreement | crates/render-browser/src/cache.rs:517-546 | a stored variant matches a request if and only if the request agrees with the storing one on every field the response varies on (section 4.1 of RFC 9111) |
| CachePolicy.RepeatedLinesCombine | crates/render-browser/src/cache.rs:619-642 | repeated request lines select the same responses as one combined line, when the first value closes its quotes |
| CachePolicy.KeysTellTargets | crates/render-browser/src/cache.rs:485-493 | two requests share a key exactly if they ask for the same URL up to its fragment with the same `Accept` field |
| CacheAdmission.AdmissionMeaning | crates/render-browser/src/cache.rs:456-485 | an exchange is admitted for a lifetime exactly if it is a GET over HTTP without cookies or a range, answered by that very URL with status 200 and without redirects, sets no cookie, has a usable `Vary`, and its lines grant that lifetime |
| CacheAdmission.StoredExactly | crates/render-browser/src/cache.rs:333-376 | the store retains a response exactly if its exchange is admitted in this epoch for a lifetime that ends in time and there is room for it |
| CacheAdmission.NotModifiedMeaning | crates/render-browser/src/cache.rs:263-279 | a `304` counts as an answer exactly if it is one of this epoch, direct, to such a request |
| CacheAdmission.AgreementMeaning | crates/render-browser/src/cache.rs:517-546 | two requests agree on the selectors of a response exactly if they have the same value of every field that its `Vary` lines name |
| CacheAdmission.AbsentValue | crates/render-browser/src/cache.rs:619-642 | a field without a line has no value, except `Accept`, which then has the normalised value that the transport sends |
| CacheAdmission.FirstLineValue | crates/render-browser/src/cache.rs:619-642 | the first line of a field gives its normalised value, followed after a comma by the value of the later lines |
| CacheAdmission.ValidatorsMeaning | crates/render-browser/src/cache.rs:233-250 | a conditional request carries the text of the first stored `ETag` line as entity tag and that of the first `Last-Modified` line as date |
| CacheAdmission.FramingStays | crates/render-browser/src/cache.rs:743-752 | a `304` leaves all lines of the five fields that describe the stored body as they were |
| CacheAdmission.OthersAreUpdated | crates/render-browser/src/cache.rs:754-766 | of any other field that a `304` carries its last line is all that is left |
| RecencyList.Trimmed | crates/render-browser/src/cache.rs:432-452 | what eviction leaves is the longest most-recent-first prefix that fits both limits |
| RecencyList.Best | crates/render-browser/src/cache.rs:549-575 | the selected response has the latest expiry among the matching fresh (or stale) ones, and is the most recently used of those |
| RecencyLaws.OperationsKeepInv | crates/render-browser/src/cache.rs:178-390 | no operation exceeds a limit or keeps two responses under one key and variant |
| RecencyLaws.MergeOutcome | crates/render-browser/src/cache.rs:255-326 | the whole effect of a `304`: when a body comes back, that it is the stale body with status 200 and the stored content type, fresh at `now` if retained, no growth and no capacity eviction, and removal of exactly the selected entry when unstorable (section 4.3.4 of RFC 9111) |
| LongLifetimes.LongLifetimeFailsTheMerge | crates/render-browser/src/cache.rs:255-326 | over the history of one store and one refresh, for every storable response with a lifetime, every lifetime beyond the largest instant and every time after the expiry: the `304` answers its request, its stale entry is found, and yet there is no response and nothing changes |
| LongLifetimes.SomeLifetimeIsTooLong | crates/render-browser/src/cache.rs:796-851 | there is such a lifetime among those that parse |
| ContentTypes.MergeKeepsContentType | crates/render-browser/src/cache.rs:741-794 | the content type recomputed after a `304` is that of the stored headers, whatever the `304` carries |
| ContentTypes.CharsetIsRead | crates/render-browser/src/cache.rs:778-794 | a media type followed by a charset parameter, bare or in quotes, is read as just these two |
| ContentTypes.MediaTypeIsRead | crates/render-browser/src/cache.rs:778-794 | a media type by itself is read as such, without a charset |
| RecencyLaws.MergeKeepsOthers | crates/render-browser/src/cache.rs:255-326 | every other entry survives a `304` except one that shares the recomputed variant |
| RecencyLaws.RetainedIsFresh | crates/render-browser/src/cache.rs:333-376 | whatever is retained at `now` is fresh at `now`, for its explicit lifetime |
| RecencyLaws.StoredIsFirst | crates/render-browser/src/cache.rs:333-376 | a stored response survives its own eviction pass, at the front |
| RecencyLaws.ServedIsMostRecent | crates/render-browser/src/cache.rs:178-229 | whatever is served, fresh or stale, becomes the most recently used, the others keep their order, and a miss changes nothing |
| RecencyLaws.StoreThenLookup | crates/render-browser/src/cache.rs:178-202 | after a store the same request without validators, with whatever fragment, hits until the expiry, with a response at least as long-lived, and with the stored one when no other variant of its key matches |
| CacheRuns.RunsKeepInv | crates/render-browser/src/cache.rs:178-452 | over every history the limits hold and variants stay distinct |
| CacheRuns.SlotsHaveOrigins | crates/render-browser/src/cache.rs:178-390 | over every history each response present was retained by some store or refresh since the last clear |
| CacheRuns.OnlyPlainExchangesAreKept | crates/render-browser/src/cache.rs:456-485 | over every history whatever is in the cache was retained by an event with a plain request that it answers directly with status 200, of its own or after a refresh, sets no cookie, and expires when the lifetime that its own lines grant is over |
| CacheRuns.NothingForbiddenIsKept | crates/render-browser/src/cache.rs:815-827 | over every history no response in the cache has a `Cache-Control` member that forbids keeping it |
| CacheRuns.BodiesWereStored | crates/render-browser/src/cache.rs:255-376 | over every history each body in the cache is that of a plain exchange with status 200 stored under the same key since the last clear, within the limits for one entry |
| CacheRuns.ServedResponsesAreSound | crates/render-browser/src/cache.rs:178-229 | over every history each response served answers the very URL of the request; it was retained since the last clear under a plain request for that URL with the same `Accept` that agrees on every field the response's `Vary` lines name; and it is served as fresh exactly within the lifetime that its lines grant (section 4.1 of RFC 9111) |
| CacheRuns.ServedBodiesWereStored | crates/render-browser/src/cache.rs:178-229 | over every history each body served, fresh or stale, however often refreshed, was stored since the last clear with a response of that URL, for a request with the same `Accept` |
| Buckets.SelectionAgrees | crates/render-browser/src/cache.rs:549-575 | scanning one bucket finds exactly the list's best response |
| Buckets.BucketStructure | crates/render-browser/src/cache.rs:397-430 | no bucket is empty and variants within a bucket are pairwise different |
| Buckets.OldestIsLast | crates/render-browser/src/cache.rs:432-452 | the entry with the smallest access stamp is the last of the recency list |
| Buckets.RemoveRepresents | crates/render-browser/src/cache.rs:417-430 | removing an entry, and its bucket when it became empty, removes exactly that entry from the list |
| Buckets.TouchRepresents | crates/render-browser/src/cache.rs:392-395 | restamping an entry moves it to the front of the list and nothing else |
| HttpCaching.HttpCache.constructor | crates/render-browser/src/cache.rs:142-150 | a new cache is the empty list in epoch zero |
| HttpCaching.HttpCache.Lookup | crates/render-browser/src/cache.rs:178-202 | serves the list's best fresh response and moves it to the front, or misses and changes nothing |
| HttpCaching.HttpCache.StaleResponse | crates/render-browser/src/cache.rs:208-229 | the same for the best expired response |
| HttpCaching.HttpCache.RevalidationRequest | crates/render-browser/src/cache.rs:233-250 | a conditional request only from a stale entry that has a validator |
| HttpCaching.HttpCache.MergeNotModified | crates/render-browser/src/cache.rs:255-326 | result and new list are those of the list's `304` operation |
| HttpCaching.HttpCache.Store | crates/render-browser/src/cache.rs:333-376 | outcome and new list are those of the list's store, with the source's order of refusals |
| HttpCaching.HttpCache.Clear | crates/render-browser/src/cache.rs:380-390 | empties the list, advances the epoch and reports the entries and bytes dropped |
| HttpCaching.HttpCache.InsertEntry | crates/render-browser/src/cache.rs:397-415 | replaces the entry of the same variant, puts the new one in front and cuts the list to the limits |
| HttpCaching.HttpCache.RemoveBucketEntry | crates/render-browser/src/cache.rs:417-430 | takes one entry out of the list and its bytes out of the counter |
| HttpCaching.HttpCache.FindOldest | crates/render-browser/src/cache.rs:434-443 | the scan over all buckets finds the last entry of the list, and finds none only when the cache is empty |
| HttpCaching.HttpCache.EvictToLimits | crates/render-browser/src/cache.rs:432-452 | the loop ends, leaves the longest fitting prefix, and never takes its exit for a missing entry |
| HttpCaching.HttpCache.EntryCount | crates/render-browser/src/cache.rs:166-168 | summing the buckets counts the list |
| FetchFrontends.FetchFrontend.SubmitCachedFetch | crates/render-browser/src/app.rs:2489-2543 | a hit is ready at once; otherwise the request, made conditional when it can be, is in flight or deferred and remembers the epoch |
| FetchFrontends.FetchFrontend.FinishCachedFetch | crates/render-browser/src/app.rs:2545-2567 | a completion stores, folds a `304` or fails, under the epoch of its submission |
| FetchFrontends.FetchFrontend.ClearHttpCache | crates/render-browser/src/app.rs:4563-4594 | a clear empties the cache unless an earlier one still runs on disk |
| FetchEpochs.EpochsTellAlways | crates/render-browser/src/app.rs:2489-2567 | over every interleaving, a transfer carries the current epoch only if the cache was not cleared since its submission |
| FetchEpochs.NothingCrossesAClear | crates/render-browser/src/app.rs:2489-2567 | over every interleaving of submissions, completions and clears, each response in the cache was produced by the completion of a transfer submitted after the last clear: that completion delivered this response, storable under the transfer's request, in the epoch of its submission |
| FetchEpochs.FreshResponsesAreKept | crates/render-browser/src/app.rs:2545-2567 | what the network delivers for a plain request of this epoch with a granted lifetime and room for it is handed on and kept, and until the lifetime is over the same request is ready at once |
| FetchEpochs.CompletionsAreHandedOn | crates/render-browser/src/app.rs:2545-2567 | any response other than a `304` is handed on as it came, and a failure as one |
| FetchEpochs.NotModifiedIsFolded | crates/render-browser/src/app.rs:2552-2556 | a `304` hands on a response exactly if it directly answers a plain request of this epoch, a stale entry is there, and the refreshed lifetime is not too long; it is then that entry's body with status 200, and otherwise nothing changes |
| FetchEpochs.ParkedRequestsWait | crates/render-browser/src/app.rs:2516-2543 | a request that found the queue full completes with nothing until it is submitted again |
| RenderModel.Latest | crates/render-browser/src/worker.rs:398-423 | draining yields the newest published result that is not a cancellation |
| RenderLog.ResubmissionCarriesLastRequest | crates/render-browser/src/app.rs:1162-1172 | a resubmission carries the viewport of the last request it stands for |
| RenderLog.CommitsAdvance | crates/render-browser/src/app.rs:912-936 | in a legal history installed frames get strictly newer and belong to the document on screen |
| RenderLog.ScrollCommitsAreCurrent | crates/render-browser/src/app.rs:822-834 | in a legal history no full frame is submitted or installed between a scroll frame's submission and its installation |
| RenderLaws.StepKeeps | crates/render-browser/src/app.rs:599-1172 | every step of the coordinator, the user or a worker keeps the fields in agreement with a legal history |
| RenderLaws.RunKeepsInv | crates/render-browser/src/app.rs:599-1172 | so does every run that asks for fewer frames than the generation counter can tell apart |
| RenderLaws.HistoryIsLegal | crates/render-browser/src/app.rs:599-1172 | every run from a new tab yields a legal history |
| RenderLaws.RepaintsAreConserved | crates/render-browser/src/app.rs:1119-1172 | over every run each request that finds the tab busy enters the history; each burst of such requests is resubmitted once, dropped once, or still remembered; resubmissions carry the last requested viewport; and each drop is made by an event with its reason |
| RenderLaws.AbandonmentsHaveReasons | crates/render-browser/src/app.rs:599-1172 | a request is dropped only by a viewport of no area, a navigation, the closing of the tab, or a worker that stopped |
| RenderLaws.RequestsAreNotLost | crates/render-browser/src/app.rs:1119-1172 | over every run without these reasons a remembered request stays remembered or is resubmitted, and nothing is dropped |
| RenderLaws.RequestsAreTaken | crates/render-browser/src/app.rs:599-772 | a request or hover that no scroll frame can serve is submitted at once by an idle tab and remembered by a busy one; and over every further run without these reasons a request is still remembered or a frame was submitted for it |
| RenderLaws.CommitTakesRequests | crates/render-browser/src/app.rs:972-1118 | each of the repaints that the scripts and resources of a commit ask for one after the other is submitted or remembered, and the rest of the commit does not undo that |
| RenderLaws.FramesAdvance | crates/render-browser/src/app.rs:912-936 | over every run installed full frames have strictly increasing generations and the current document serial |
| RenderLaws.ScrollFramesAreCurrent | crates/render-browser/src/app.rs:795-878 | over every run an installed scroll frame had no full-frame submission or installation since its own submission |
| RenderLaws.RecoveryPays | crates/render-browser/src/app.rs:1141-1152 | with the worker idle and running, recovery turns an owed request into exactly one full frame of its viewport and document |
| RenderLaws.ReadingKeepsDebt | crates/render-browser/src/app.rs:884-1118 | whether a read frame is installed, failed, discarded or held for its first stylesheets, and whatever repaints its commit asks for, a remembered request stays, is resubmitted, or is dropped for a viewport of no area or a stopped worker |
| RenderLaws.WorkerRunsDry | crates/render-browser/src/worker.rs:484-559 | every move of a worker on its own uses up a bounded amount of work |
| RenderLaws.DebtIsPaidInTime | crates/render-browser/src/app.rs:1141-1152 | left to itself the worker makes at most a fixed number of moves, and once it can make no more, reading its result and recovery submit a frame for the remembered request |
| RenderFrames.InstalledFramesAreRight | crates/render-browser/src/app.rs:912-960 | over every run each installed frame is the newest result, of the size requested at that moment, at the window's scale, at the scroll position when a frame was on show, for the document on show; and a document's first frame is not installed without the stylesheets it plans |
| RenderFrames.RequestedSizeStays | crates/render-browser/src/app.rs:599-622 | after a request, in a tab that owes no other size, that size stays the requested one over every run without other requests or a navigation |
| RenderFrames.FramesAskedForAreShown | crates/render-browser/src/app.rs:599-1057 | in every reachable open tab with a resting worker a frame that is asked for, rendered, read and not held back is installed and shown at its size, exactly if the window's scale is not negative |
| RenderFrames.ScrollFramesNeedLayers | crates/render-browser/src/app.rs:625-636 | a scroll frame is submitted only on a request that asks for one, of the size on show, with layers kept, no pending stylesheets and nothing selected |
| RenderFrames.ScrollFramesAskedForAreShown | crates/render-browser/src/app.rs:625-878 | where that holds and the compositor rests, a scroll frame that is asked for and composed is shown |
| RenderFrames.ReadingPays | crates/render-browser/src/app.rs:884-1118 | when nothing else runs, reading a result that is not held back, be it installed, discarded or failed, submits a frame for the remembered request at once |
| RenderFrames.NavigationForgets | crates/render-browser/src/app.rs:2579-2610 | after a navigation nothing of the old document is shown, awaited, queued or owed, and no stylesheets of it count |
| RenderFrames.EmptyRequestClears | crates/render-browser/src/app.rs:617-631 | a request for a frame of no area leaves nothing shown, awaited, queued or owed |
| RenderPipeline.TabPipeline.SchedulePageRender | crates/render-browser/src/app.rs:599-772 | the tab's new state for each branch: gone, empty viewport, scroll frame, coalesced, full frame |
| RenderPipeline.TabPipeline.CommitRender | crates/render-browser/src/app.rs:884-1118 | the tab's new state for each branch: failed, discarded, first paint held back, installed, with every repaint that the commit itself asks for |
| RenderPipeline.TabPipeline.InstallFrame | crates/render-browser/src/app.rs:972-1057 | installing a frame supersedes scroll frames of the old layer tree |
| RenderPipeline.TabPipeline.CommitCompositorFrame | crates/render-browser/src/app.rs:795-878 | only the expected scroll frame is installed |
| RenderPipeline.TabPipeline.PollRenderWorker | crates/render-browser/src/app.rs:774-778 | every unread result is taken, the newest is committed |
| RenderPipeline.TabPipeline.ResubmitDirtyRender | crates/render-browser/src/app.rs:1162-1172 | the remembered request is taken off and scheduled again at its own viewport |
| RenderPipeline.TabPipeline.RecoverUnresolvedRenderRequests | crates/render-browser/src/app.rs:1141-1152 | acts exactly on an owed request of an idle tab |
| RenderPipeline.TabPipeline.QueueHoverRepaint | crates/render-browser/src/app.rs:5442-5451 | remembers the request of a busy tab, schedules it otherwise |
| RenderPipeline.TabPipeline.InstallSource | crates/render-browser/src/app.rs:2579-2610 | a navigation cancels both workers, advances the serial and forgets frames and requests of the old document |
| RenderPipeline.TabPipeline.CloseTab | crates/render-browser/src/app.rs:2020-2030 | closing drops the tab's work and its remembered request |
| ScriptGate.StepKeepsInv | crates/render-browser/src/app.rs:2696-2822 | every step keeps at most one batch outstanding, fates in planning order, batches disjoint, and nothing run before the stylesheets |
| ScriptGate.RunKeepsInv | crates/render-browser/src/app.rs:2696-2822 | so does every run |
| ScriptGate.ScriptsRunInOrder | crates/render-browser/src/app.rs:2730-2822 | within a document the started script elements are exactly the planned ones, batches meet their fates in planning order, each element is in at most one, none runs before the stylesheets resolve, and no prepared batch is overwritten |
| ScriptGate.UnstartedKeepsOrder | crates/render-browser/src/app.rs:2768-2774 | a batch has every found element that was not started, at every place where it was found, in the order found |
| ScriptGate.ScriptsRunAsFound | crates/render-browser/src/app.rs:2752-2822 | over every run of a document any two scripts that one scan found unstarted are in one batch, run if it runs, and run in the order found |
| ScriptGate.ResolvedMeans | crates/render-browser/src/app.rs:2740-2766 | scripts count as resolved only once a scan finds nothing new or 4096 elements were started |
| ScriptGate.HistoryAccumulates | crates/render-browser/src/app.rs:2730-2822 | what ran stays run, and without a cancellation every fate is to run |
| ScriptGate.DroppedScriptsNeverRun | crates/render-browser/src/page_state.rs:866-887 | a batch dropped by a cancellation never runs in this document, and neither do its script elements in any other batch |
| ScriptGate.CancelLosesExactlyTheWaiting | crates/render-browser/src/app.rs:2157-2176 | in every reachable document a started script has run or can still run if and only if it was not lost before; after a cancellation that leaves the document in place it can no longer run if and only if it was waiting in the outstanding batch or was lost before |
| ScriptGate.AScriptIsLost | crates/render-browser/src/page_state.rs:866-887 | a run of two steps after which a script that was found once can never run |
| ScriptCoordination.ScriptCoordinator.StartClassicScripts | crates/render-browser/src/app.rs:2730-2822 | the loop ends even if every script inserts more; it leaves a held batch only while stylesheets are missing, and otherwise a pending batch or resolved scripts |
| ScriptCoordination.ScriptCoordinator.PlanUnstarted | crates/render-browser/src/app.rs:2752-2813 | one scan starts at least one new element before the loop may go round again |
| ScriptCoordination.ScriptCoordinator.FinishClassicScripts | crates/render-browser/src/app.rs:3291-3347 | a batch with more module rounds stays pending; a complete one runs or is held, then the scan goes on |
| ScriptCoordination.ScriptCoordinator.FinishStyleSheets | crates/render-browser/src/app.rs:1047-1110 | once the stylesheets resolve the held batch runs, and a batch is pending or the scripts are resolved |
| ScriptCoordination.ScriptCoordinator.CancelScripts | crates/render-browser/src/page_state.rs:882-887 | cancelling drops the outstanding batch |
| PageFetches.PageFetchShell.SubmitPageFetch | crates/render-browser/src/app.rs:2377-2487 | the new shell for each branch: unparsable request settled at once, page gone, same origin, simple, preflight first; `PageFetchCaching` adds what the cache makes of the request that is handed over |
| PageFetches.PageFetchShell.PollPendingFetchSettlements | crates/render-browser/src/app.rs:3715-3796 | one pass over all transfers in order, then the settlements in the order they were found |
| PageFetchLaws.CompletionMovesForward | crates/render-browser/src/app.rs:3718-3783 | a completion leaves a transfer alone only while nothing arrived, takes an allowed preflight to the actual request of its plan and to nothing else, and otherwise ends it for good; a success needs the actual request to be out |
| PageFetchLaws.UnparsableIsSettled | crates/render-browser/src/app.rs:2377-2396 | a request that does not parse ends its wait at once and sends nothing; any other is sent and waited for |
| PageFetchLaws.DeliveredIffReadable | crates/render-browser/src/app.rs:3843-3870 | a response is delivered if and only if its request does not leave the page's origin or CORS lets the page read it, by the stricter rule with credentials; all headers are shown exactly within the origin |
| PageFetchLaws.RunKeepsInv | crates/render-browser/src/app.rs:2377-2487 | over every run each ticket is unused, in one pending transfer at the stage its history says, or over |
| PageFetchLaws.TransfersAreConserved | crates/render-browser/src/app.rs:3715-3796 | over every run each accepted transfer is pending once and unsettled, or not pending and settled exactly once |
| PageFetchLaws.PreflightComesFirst | crates/render-browser/src/app.rs:2455-2486 | over every run each request submitted belongs to a transfer planned for a page on show; one that leaves the origin of that page's address and is not simple is submitted only after its own preflight was sent and allowed it; that preflight asks for exactly the origin of that address, the method of the request as it is read, and the headers that need asking for, without cookies or body |
| PageFetches.MethodNamesParse | crates/render-net/src/transport.rs:195-223 | a token is read as a method exactly if it is that method's name |
| PageFetchLaws.PlansWereAsked | crates/render-browser/src/app.rs:2396-2402 | over every run each plan was made by a submission of a page on show, for the address that page had then, whatever addresses it takes later |
| PageFetchLaws.ScriptsSeeWhatCorsAllows | crates/render-browser/src/app.rs:3738-3783 | over every run a transfer delivers a response only after its actual request, and, when that request leaves the origin of the asking page's address, only if CORS lets that origin read it; for the document that receives it see the next two rows |
| PageFetchDocuments.ReceiversSeeWhatCorsAllows | crates/render-browser/src/app.rs:3738-3794 | over every run that replaces documents only while none of their tab's transfers is in flight, the document that receives an outcome is the one that asked, and across origins it receives only what CORS lets it read |
| PageFetchDocuments.AnotherPagesResponseIsSeen | crates/render-browser/src/app.rs:3786-3794 | without that condition, for any two addresses and any response: a run of five steps in which a document is handed the same-origin response of the document before it, all headers included, although CORS refuses it |
| PageFetchLaws.PagesSendOnlyWhatTheyMay | crates/render-browser/src/app.rs:2404-2454 | the headers sent are those the page gave without the forbidden ones, in its order, then referrer and origin across origins; `Accept` is the last one given; and cookies go out exactly as the code decides |
| PageFetchDocuments.RunDelivers | crates/render-browser/src/app.rs:3786-3794 | while no document is replaced, every answer reaches the document that asked |
| PageFetchDocuments.LateAnswerMeetsNextDocument | crates/render-browser/src/app.rs:3786-3794 | from every shell with a transfer of a replaced document in flight, a run that answers the wrong document |
| PageFetchDocuments.ReplacementIsSafeIff | crates/render-browser/src/app.rs:2579-2610 | replacing a tab's document is safe for every later run if and only if none of its transfers is in flight |
| PageFetchCaching.SubmissionMeans | crates/render-browser/src/app.rs:2489-2502 | a submission is answered by a fresh entry of its key, or goes out as it is, or goes out with the validators of the stale entry selected for it; preflights and requests with cookies always go out as they are |
| PageFetchCaching.SubmissionsWerePlanned | crates/render-browser/src/app.rs:2404-2502 | over every run with the cache in between, what a transfer submits was planned: across origins a request that is not simple follows its own allowed preflight, and no preflight is answered from the cache |
| PageFetchCaching.ResponsesHaveSources | crates/render-browser/src/app.rs:3715-3796 | over every run each response that a transfer is handed is the fresh cached one selected at its submission, a direct response to that URL for a GET without cookies, or the network's answer to the request that this submission sent |
| PageFetchCaching.UnaskedNotModifiedNeedsStale | crates/render-browser/src/app.rs:3718-3766 | over every run with a network that answers `304` only where asked, a page that did not ask is handed a `304` only if a stale entry with validators was selected at its submission |
| PageFetchCaching.UnaskedNotModifiedIff | crates/render-browser/src/app.rs:3718-3766 | in every reachable state such a network can settle a waiting transfer of a page that did not ask with a `304` that the page may read, if and only if a stale entry with validators was selected at its submission |
| UnaskedNotModified.APageIsHandedANotModified | crates/render-browser/src/app.rs:2489-2567 | for every storable response whose headers are a lifetime and an entity tag, a run in which another transfer stored it and a page that asks for the same URL after the expiry is settled with a `304` |
| SpanLexer.Lex | tools/check_site_neutrality.py:509-511 | the result is the token-by-token meaning of the text, filed under its lines |
| SpanLexer.Lexer.Run | tools/check_site_neutrality.py:401-411 | the loop ends although one step does not advance, computes the meaning, and meets comments only with a depth of at least one |
| SpanLexer.Lexer.Record | tools/check_site_neutrality.py:375-385 | a chunk's first line goes to the current line and each further one starts a new line |
| SpanLexer.Lexer.CodeStep | tools/check_site_neutrality.py:413-445 | a step in code leaves the meaning of the whole text unchanged and advances |
| SpanLexer.Lexer.CommentStep | tools/check_site_neutrality.py:461-478 | a step in a comment leaves the meaning unchanged, advances, and stays in the comment only above depth zero |
| SpanLexer.Lexer.StringStep | tools/check_site_neutrality.py:480-506 | a step in a string leaves the meaning unchanged and advances or leaves the string |
| SpanLexerLaws.LexIsFaithful | tools/check_site_neutrality.py:375-506 | for every text the tokens tile it, there is one line of spans per source line, and each line of spans is that source line, kind by kind, without its dropped characters |
| SpanLexerLaws.LexIsTheReading | tools/check_site_neutrality.py:413-506 | every text has exactly one reading as comments and literals with code between them, in which each section is what its first characters open and no section starts inside code, and the tokens are those of that reading |
| SpanLexerLaws.ReadingIsUnique | tools/check_site_neutrality.py:413-506 | two readings of a text are equal, so neither where a section ends nor what kind it is was left open |
| SpanLexerLaws.CommentEndFits | tools/check_site_neutrality.py:461-478 | the look-ahead scan ends a block comment exactly where a character-by-character nesting count first returns to zero |
| SpanLexerLaws.StringEndFits | tools/check_site_neutrality.py:493-506 | a string ends at its first quote or newline with an even number of backslashes before it |
| SpanLexerLaws.RawOpeningFits | tools/check_site_neutrality.py:431-434 | a raw string opens exactly where `r` or `br`, hashes and a quote stand, with the hashes that stand there |
| SpanLexerLaws.StringIsSection | tools/check_site_neutrality.py:480-506 | a string opened with hashes runs to the first quote followed by exactly these, any other to its first unescaped quote or newline; exactly that closing delimiter is dropped |
| SpanLexerLaws.DroppedHasNoBreak | tools/check_site_neutrality.py:480-506 | no dropped text holds a line break |
| SpanLexerLaws.RawStringIsReadIff | tools/check_site_neutrality.py:431-506 | a raw string is read to its first closer with the same hashes if and only if it has hashes, or every line break before its first quote is escaped and that quote is not |
| SpanLexerLaws.RawStringsAreReadIff | tools/check_site_neutrality.py:413-506 | of all raw strings in a text, exactly those that meet this condition are read as raw strings |
| SpanLexerLaws.CharLiteralIsReadIff | tools/check_site_neutrality.py:438-445 | reading a character literal stops just after its closing quote if and only if its content is not an escape; of an escape it drops the escaped character and reads the closing quote as code |
| SpanLexerLaws.NothingIsOverlooked | tools/check_site_neutrality.py:413-445 | every character literal, comment mark and quote of a text lies in a section of its reading, none in code |
| SpanLexerLaws.RecordedPaints | tools/check_site_neutrality.py:375-385 | recording a chunk adds exactly its characters, broken at its newlines |
| DomTree.PreorderIsSubtree | crates/render-browser/src/content_interaction.rs:455-473 | preorder lists exactly the nodes from which parents lead to the root |
| DomTree.PreorderVisitsOnce | crates/render-browser/src/content_interaction.rs:455-473 | preorder visits each node once |
| DomTree.PreorderIsDocumentOrder | crates/render-browser/src/content_interaction.rs:455-473 | anywhere in the tree a node comes before what is below it, and what is under an earlier child before what is under a later one |
| DomTree.PopThenPush | crates/render-browser/src/content_interaction.rs:455-473 | popping a node and pushing its children in reverse visits that node and leaves the rest of preorder to come |
| DomTree.MirrorVisitsTheSame | crates/render-browser/src/content_interaction.rs:435-437 | pushing children unreversed changes the order of a walk, not the nodes it visits |
| ContentInteraction.DescendantText | crates/render-browser/src/content_interaction.rs:455-473 | the text of all text nodes below the root, in document order |
| ContentInteraction.ContentTextInputValue | crates/render-browser/src/content_interaction.rs:397-424 | the value of a text input, text area or editable element, and none for any other node |
| ContentInteraction.TextControlsAre | crates/render-browser/src/content_interaction.rs:383-424 | exactly which elements hold text: inputs without a type, with an empty one or with one of six types in any case, text areas, and other elements whose attribute says they can be edited |
| ContentInteraction.QueryControlsAre | crates/render-browser/src/content_interaction.rs:208-253 | exactly which elements a form can be queried by: such inputs and text areas without a `disabled` attribute |
| ContentInteraction.FindFormById | crates/render-browser/src/content_interaction.rs:366-381 | the first form of that id in document order |
| ContentInteraction.AssociatedFormForNode | crates/render-browser/src/content_interaction.rs:348-360 | the nearest enclosing form, else the form named by the `form` attribute |
| ContentInteraction.FallbackSubmitForm | crates/render-browser/src/content_interaction.rs:175-205 | returns a form if and only if the intent has none of its own and that form is the only one of the document and unrendered |
| ContentInteraction.FormSingleQueryControl | crates/render-browser/src/content_interaction.rs:208-230 | returns a control if and only if it is the only enabled query control below the form |
| ContentInteraction.ContentWrapperControl | crates/render-browser/src/content_interaction.rs:426-453 | the smallest boxed text control below the wrapper, ties to the first in walk order, if it covers a quarter of the wrapper |
| ContentInteraction.AncestorWrapperControl | crates/render-browser/src/content_interaction.rs:274-287 | the control of the nearest ancestor that routes to one |
| ContentEditing.Dom.SetContentTextValue | crates/render-browser/src/content_interaction.rs:475-494 | the whole arena after a write, which cannot fail: the attribute of an input, or detached children and one text node |
| ContentEditing.Dom.EmptyOut | crates/render-browser/src/content_interaction.rs:487-489 | removing the copied children one by one detaches exactly them |
| ContentEditing.WriteThenRead | crates/render-browser/src/content_interaction.rs:397-494 | reading after a write gives the written value exactly for text controls, and none for any other node |
| ContentEditing.WritingIsLocal | crates/render-browser/src/content_interaction.rs:475-494 | a write leaves every other node's kind and children alone and adds at most one text node |
| ContentEditing.Dom.RemoveChild | crates/render-dom/src/lib.rs:1221-1235 | detaches a child of that parent and refuses any other node |
| ContentEditing.Dom.AppendText | crates/render-dom/src/lib.rs:1062-1087 | extends a last text child, or else adds a new text node below an element or a fragment; empty text and unknown parents change nothing, and any other parent is refused after the new node was made, which stays without a parent |
| ContentEditing.Dom.SetAttribute | crates/render-dom/src/lib.rs:1244-1303 | sets an attribute of an element, under its lower-case name in the HTML namespace, and refuses any other node |
| ContentEditing.AttributeSetThenRead | crates/render-dom/src/lib.rs:1244-1356 | reading an attribute after a write gives the written value for every name that means the same on that element, up to case on HTML elements, which keep it in lower case; every other name reads as before |
| ContentEditing.DetachedIsForest | crates/render-dom/src/lib.rs:1687-1705 | detaching keeps parents and children in agreement and the tree acyclic |
| ContentEditing.Dom.SyncSubmitControlValue | crates/render-browser/src/content_interaction.rs:255-270 | succeeds if and only if the form has a sole query control other than a source with a value; that control then reads what the source read |
| ContentEditing.Dom.SyncFormlessSubmitValue | crates/render-browser/src/content_interaction.rs:295-319 | the first eligible node from the hit upwards passes its wrapper's text to the sole hidden form; without one nothing changes |

## Left out

- HttpCaching.HttpCache.Lookup: requires the access clock to be below its 64-bit maximum; at the maximum the source's stamps saturate and stop telling recency. The same holds for StaleResponse, RevalidationRequest, MergeNotModified and Store.
- RenderLaws.RunKeepsInv: covers runs that ask for at most 2^64 - 1 frames, before the 64-bit generation counter saturates and new frames stop being newer. The same holds for HistoryIsLegal and the results built on it.
- FetchEpochs.NothingCrossesAClear: covers runs of at most 2^64 - 1 events, before the epoch counter saturates and clears stop being told apart.
- Instants are whole seconds up to a fixed maximum; sub-second parts are dropped.
- The disk cache, cookie jars, proxy settings and profile storage.
- The byte counter is a natural number: the bodies it counts are all alive in one address space, so saturation of `usize` cannot happen.
- Painting, layout, raster and style computation: a finished frame is the few booleans the coordinator reads. Device scales and box areas are real numbers, without rounding or non-finite values.
- Other tabs appear only through what they do to this tab's place in the bounded worker queues. Worker threads and locks are the steps of `RenderModel.WorkerStep`.
- The URL, DOM revision, animation time and colour scheme inside a render identity; only what decides installation is kept.
- What a script does: a batch that runs is one event, and the document may change at any time.
- The CORS rules themselves (`cors.rs`) are parameters. Parsing of URLs and methods is an input that may be absent.
- In `PageFetch` a completion comes as it is; as in the source, it neither fills the cache nor is a `304` folded. Where it comes from is the matter of `PageFetchCaching`, which is a layer of functions over the shell and the cache: the class `PageFetchShell` does not call the class `FetchFrontend`.
- A page's request is issued and submitted in one step; the source queues it in the runtime until the next network poll.
- Stylesheet, image, font and dynamic-import batches, and stall reports.
- The lexer's regular-expression rules, allowlist and reporting. The grammar is the code's own, so agreement with the full Rust grammar is not claimed.
- Ranges, node documents, the mutation journal and the named-element index of the DOM. Shadow roots count as fragments, and attributes are found by their qualified names.
- `activation_plan` is a parameter of `SyncFormlessSubmitValue`; `submit_form_for_node`, hit testing and the plans for links are not modelled.
- Windowing, input methods, the event loop's wake-up times and all user interface code.
