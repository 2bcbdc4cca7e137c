# memcore verification

A Dafny model of the parts of memcore whose correctness spans many calls or whole texts, with proofs of what they
promise:

- **Rate limiter** (`RateLimiter.dfy`): the per-organization fixed-window limiter as a class, and its behaviour over
  arbitrary traces of calls whose clock readings may step back.
- **Secret redactor**: the four scanning loops, each proved equal to a character-by-character specification
  (`Redaction.dfy`); idempotence of each pass and what no pass undoes (`RedactionProperties.dfy`); exactly which secrets
  each pass hides (`RedactionSecrecy.dfy`, `RedactionMarkers.dfy`); the pipeline (`RedactionPipeline.dfy`), secrecy of
  URLs through all of it and exactly when that is unconditional (`RedactionEndToEnd.dfy`, `RedactionUrlSecrets.dfy`,
  `RedactionOverreach.dfy`), exactly when redacting twice is redacting once (`RedactionStability.dfy`,
  `RedactionIdempotence.dfy`), and what every output promises of tokens, keys and headers (`RedactionTokens.dfy`,
  `RedactionKeys.dfy`, `RedactionHeaders.dfy`, `RedactionPromises.dfy`); the recursive JSON rewriter
  (`JsonRedaction.dfy`).
- **Fact store** (`FactSteps.dfy`, `FactStore.dfy`, `FactViews.dfy`, `FactRuns.dfy`, `FactSearch.dfy`): the in-memory
  store as a class over a fact map and a tombstone set, each method proved against a pure step; tenant isolation,
  tombstones, aggregates and retention over whole runs; what each call means for what tenants get and find.
- **Event store** (`EventStore.dfy`, `EventSearch.dfy`): physical retention and paged listings.
- **Pagination** (`Ordering.dfy`, `Pagination.dfy`): keyset pages, UUID text order, stable sorting.
- **Similarity and duplicates** (`Similarity.dfy`, `SimilarityLaws.dfy`, `Embedding.dfy`, `Deduplication.dfy`): cosine
  scores and the laws that fix them, the deterministic embedding and top-k duplicate detection over exact reals.
- **Backups** (`Backup.dfy`): labels, file names and rotation.

`dafny verify dfyconfig.toml` checks everything.

Reading notes:

- Instants are integers (nanoseconds), UUIDs are 16 bytes, text is a sequence of characters. The redactor is modelled on
  ASCII text, where a character is a byte.
- A hash map or a directory is visited in an arbitrary order: the loops pick any remaining element, and the contracts
  hold whichever is picked.
- `now` is an argument of the limiter's `Check`; a run lists the calls in the order in which they take the lock. Since
  the source reads the clock before locking, readings in a run may step back.
- The exact square root is a parameter `sqrt` with the property `IsSqrt`.

Where the code and its documentation differ, the model follows the code:

- The top-level README calls the limiter a token bucket; it is a fixed window (`rate_limit.rs:28`).
- A retry hint is a promise only if the window does not start more than a second after the reading that produced it
  (`RateLimiter.RetryHint`), which a clock stepping back can violate (`RateLimiter.EarlyHint`).
- Duplicate detection documents scores in [0, 1]; the store's cosine can be negative (`Similarity.NegativeScore`). It
  is in [0, 1] for the embeddings of the mock provider (`Embedding.EmbeddingScores`).
- `list_events` with limit 0 fetches a single row although it normalizes 0 to the default of 50 to validate it;
  `list_events_by_org` does use the default (`EventStore.ZeroLimit`).
- A key-value pass whose pattern starts with a quote is not idempotent (`RedactionProperties.DelimiterLedIsNot`), and
  neither is the whole redactor while the key patterns are on (`RedactionIdempotence.RedactTwiceIff`).
- A marker that holds a delimiter can itself be taken for a secret by an earlier hit; what follows is then printed
  (`RedactionMarkers.QuotedKeyShows`, `RedactionMarkers.BearerShows`). Of the value of a header that is not a bearer
  header, only the first word is redacted (`RedactionMarkers.HeaderNextWord`).
- With the bearer passes on, the redacted text can depend on a URL secret that itself reads like a header
  (`RedactionOverreach.UnconditionallyGoneIff`).
- A tenant that updates or deletes a fact of another tenant is told "forbidden", where it would be told "not found" if
  it were alone (`FactRuns.RefusalsDiffer`).

## Model

| member | source | states |
|---|---|---|
| RateLimiter.Limiter.constructor | crates/memcore-api/src/middleware/rate_limit.rs:37-43 | A new limiter holds no window. |
| RateLimiter.Limiter.Check | crates/memcore-api/src/middleware/rate_limit.rs:45-82 | The in-place code (prune, insert, reset, count) makes one transition of the limiter's specification: same decision, same window map. |
| RateLimiter.PruningIsUnobservable | crates/memcore-api/src/middleware/rate_limit.rs:58-60 | For every trace over any organizations whose readings step back by at most one window, every decision and the window it was taken in equal those of a limiter that never prunes. |
| RateLimiter.SlackIsTight | crates/memcore-api/src/middleware/rate_limit.rs:58-60 | One nanosecond more of clock slack and there is a trace on which pruning shows. |
| RateLimiter.OrganizationsAreIndependent | crates/memcore-api/src/middleware/rate_limit.rs:62-67 | An organization's outcomes are those of the trace with everyone else's calls removed. |
| RateLimiter.RejectedCallsAreTransparent | crates/memcore-api/src/middleware/rate_limit.rs:74-81 | With a limit of at least 1, deleting any set of Limited calls from a trace changes no other outcome. |
| RateLimiter.RetryHint | crates/memcore-api/src/middleware/rate_limit.rs:74-78 | A hint lies in 1..60, and every retry later than the hinted seconds plus one is admitted if and only if the window starts at most one second after the reading. |
| RateLimiter.HintIsExact | crates/memcore-api/src/middleware/rate_limit.rs:69-78 | The hint is the time left of the sixty seconds in whole seconds, but at least one: a retry before a hinted time of more than a second is refused, and one is admitted exactly from the end of the sixty seconds on. |
| RateLimiter.LoneRetryIsAdmitted | crates/memcore-api/src/middleware/rate_limit.rs:69-81 | In any trace, a lone retry later than the hinted seconds plus one is admitted if the refusing window starts at most one second after the refused reading, whoever else calls meanwhile and whatever is pruned. |
| RateLimiter.LoneRetryIff | crates/memcore-api/src/middleware/rate_limit.rs:69-81 | In any trace, a lone retry is admitted if and only if sixty seconds have passed since the refusing window started, and refused before a hinted time of more than a second. |
| RateLimiter.DisabledAdmits | crates/memcore-api/src/middleware/rate_limit.rs:46-48 | A disabled limiter admits every call. |
| RateLimiter.RefusedIff | crates/memcore-api/src/middleware/rate_limit.rs:62-81 | In any trace, a call of an organization opens a window if and only if there is none or sixty seconds have passed, and is refused if and only if the limit of calls was admitted in its window before. |
| RateLimiter.EarlyHint | crates/memcore-api/src/middleware/rate_limit.rs:74-78 | A steady trace, with the clock stepping back two seconds, on which a lone retry made a second after the hinted time is refused. |
| RateLimiter.AdmissionBound | crates/memcore-api/src/middleware/rate_limit.rs:62-81 | With a monotone clock, every half-open interval of k windows contains at most (k+1) times the limit of admissions of an organization. |
| RateLimiter.WindowsAdvance | crates/memcore-api/src/middleware/rate_limit.rs:69-81 | In any trace an organization's count never exceeds the limit, and its successive window starts are equal or at least a window apart. |
| Redaction.RedactAuthorizationBearer | crates/memcore-common/src/redaction/sanitizer.rs:142-182 | The loop terminates and computes the header pass as specified character by character. |
| Redaction.RedactUrlScheme | crates/memcore-common/src/redaction/sanitizer.rs:184-204 | The loop terminates and computes the URL pass of the specification, for every scheme but the empty one. |
| Redaction.RedactPrefixedToken | crates/memcore-common/src/redaction/sanitizer.rs:206-236 | The loop terminates and computes the token pass of the specification, mid-word occurrences skipped. |
| Redaction.RedactAfterPattern | crates/memcore-common/src/redaction/sanitizer.rs:251-286 | The loop terminates and computes the key-value pass of the specification. |
| RedactionProperties.CleanIsIdempotent | crates/memcore-common/src/redaction/sanitizer.rs:142-236 | The header pass, every URL pass, and every token or key-value pass whose needle does not start with a delimiter are idempotent. |
| RedactionProperties.DelimiterLedIsNot | crates/memcore-common/src/redaction/sanitizer.rs:251-286 | For every guarded needle that starts with a delimiter there is a message a second pass changes again. |
| RedactionProperties.IdempotentIff | crates/memcore-common/src/redaction/sanitizer.rs:142-286 | A pass is idempotent on all messages if and only if it is a URL pass or its needle does not start with a delimiter. |
| RedactionProperties.FollowedScan | crates/memcore-common/src/redaction/sanitizer.rs:184-204 | A URL pass puts the placeholder behind every occurrence of its scheme, and every pass whose needle cannot overlap a placeholder keeps that so for every such word. |
| RedactionSecrecy.HiddenIff | crates/memcore-common/src/redaction/sanitizer.rs:142-286 | For every pass and every text in front: all secrets that follow give the same output if and only if the scan of that text alone ends in an open cut that no continuation can turn into a bearer header; the text behind the secret must not begin with the needle of a guarded pass. |
| RedactionSecrecy.HiddenInEveryTextIff | crates/memcore-common/src/redaction/sanitizer.rs:206-286 | The same whatever follows the secret, if and only if moreover the needle of a guarded pass does not begin with a delimiter. |
| RedactionSecrecy.ShownIsPrinted | crates/memcore-common/src/redaction/sanitizer.rs:142-286 | Otherwise, unless a header is left open, the pass prints what follows, character by character. |
| RedactionSecrecy.SameTail | crates/memcore-common/src/redaction/sanitizer.rs:142-286 | What a pass writes for a tail depends on that tail alone. |
| RedactionMarkers.SecretHiddenIff | crates/memcore-common/src/redaction/sanitizer.rs:142-286 | For every scheme, prefix, key pattern with the quotes and space behind it, and bearer header: all secrets behind the marker are hidden if and only if no earlier cut ends inside the marker. |
| RedactionMarkers.SecretHiddenInEveryTextIff | crates/memcore-common/src/redaction/sanitizer.rs:206-286 | The same whatever follows the secret, if and only if moreover the needle of a guarded pass does not begin with a delimiter. |
| RedactionMarkers.HidesSecret | crates/memcore-common/src/redaction/sanitizer.rs:184-286 | Behind a scheme, prefix or key pattern without delimiters every secret is hidden, whatever stands before and after, also when earlier or overlapping occurrences exist. |
| RedactionMarkers.HidesFirstSecret | crates/memcore-common/src/redaction/sanitizer.rs:142-286 | Behind the first bearer header, prefix or key pattern of a text, quoted or not, every secret is hidden. |
| RedactionMarkers.QuotedKeyShows | crates/memcore-common/src/redaction/sanitizer.rs:269-282 | A quoted key that follows itself: the pass prints the character behind it. |
| RedactionMarkers.BearerShows | crates/memcore-common/src/redaction/sanitizer.rs:224-232 | "bearer Bearer ", in any case: both bearer passes print the character behind it. |
| RedactionMarkers.HeaderWord | crates/memcore-common/src/redaction/sanitizer.rs:160-178 | Of a header's value, the rest of the first word is hidden if and only if that word is no beginning of "bearer ". |
| RedactionMarkers.HeaderNextWord | crates/memcore-common/src/redaction/sanitizer.rs:160-178 | Behind the first word of a header's value and a delimiter everything is shown, unless they are "bearer ". |
| RedactionPipeline.RedactKeyValue | crates/memcore-common/src/redaction/sanitizer.rs:238-249 | The loop over a key's four spellings applies their passes in order. |
| RedactionPipeline.RedactStrWithConfig | crates/memcore-common/src/redaction/sanitizer.rs:19-59 | The branches and loops apply exactly the enabled passes, in order. |
| RedactionPipeline.RulesForeign | crates/memcore-common/src/redaction/patterns.rs:50-77 | No scheme, prefix or key pattern of any configuration can overlap a placeholder. |
| RedactionPipeline.UrlsStayRedacted | crates/memcore-common/src/redaction/sanitizer.rs:28-52 | In the output for any message, every occurrence of an enabled URL scheme, in any case, is immediately followed by the placeholder: no later pass undoes a URL pass. |
| RedactionEndToEnd.TwinScan | crates/memcore-common/src/redaction/sanitizer.rs:184-204 | On two messages that differ in one URL, the pass of another scheme keeps them different at most in that URL, and the pass of its own scheme makes them equal. |
| RedactionEndToEnd.SchemesApart | crates/memcore-common/src/redaction/patterns.rs:50-58 | No scheme can begin inside, cut short or enclose an occurrence of a scheme whose pass comes later. |
| RedactionEndToEnd.UrlSecretIsGone | crates/memcore-common/src/redaction/sanitizer.rs:19-59 | For every configuration, every enabled scheme and every surrounding text, the output of the whole redactor does not depend on the URL's secret, provided nothing the bearer passes look for starts before the secret ends. |
| RedactionUrlSecrets.CalmScan | crates/memcore-common/src/redaction/sanitizer.rs:142-182 | Whatever a bearer pass cuts in front of it, two messages that differ in one URL without delimiters, in which nothing it looks for starts, stay different at most in that URL, or become equal. |
| RedactionUrlSecrets.UrlSecretHidden | crates/memcore-common/src/redaction/sanitizer.rs:19-59 | The same as `UrlSecretIsGone` also for messages the bearer passes change in front of the URL, if the secret holds no delimiter and nothing they look for starts in the URL. |
| RedactionTokens.ShutScan | crates/memcore-common/src/redaction/sanitizer.rs:206-236 | The pass of a prefix puts the placeholder behind every token that continues no word, and every pass of the redactor keeps it there. |
| RedactionKeys.HeldScan | crates/memcore-common/src/redaction/sanitizer.rs:251-286 | The pass of `key=` or `key:` puts the placeholder behind the key, quotes and space aside, and every other key pass keeps it there. |
| RedactionHeaders.HeaderKeyScan | crates/memcore-common/src/redaction/sanitizer.rs:251-286 | A key pass keeps every redacted header as it is. |
| RedactionPromises.HitIff | crates/memcore-common/src/redaction/sanitizer.rs:206-268 | A pass hits exactly where its needle stands, in any case; a token or key pass only where no letter, digit or underscore precedes it. |
| RedactionPromises.CutIs | crates/memcore-common/src/redaction/sanitizer.rs:194-282 | A hit cuts from behind its needle, for a key from behind the quotes and white space that follow, up to the first white space, or for all but URLs also quote, comma or closing brace. |
| RedactionPromises.UrlsPromised | crates/memcore-common/src/redaction/sanitizer.rs:28-40 | In every output, behind each of the eight schemes whose pass is on, in any case, stands "[REDACTED]". |
| RedactionPromises.ProviderKeysPromised | crates/memcore-common/src/redaction/sanitizer.rs:42-46 | In every output, behind each of "sk-", "sk_live_", "sk_test_" and "mc_live_" that continues no word stands "[REDACTED]". |
| RedactionPromises.BearerTokensPromised | crates/memcore-common/src/redaction/sanitizer.rs:22-26 | In every output, behind each "bearer " that continues no word stands "[REDACTED]". |
| RedactionPromises.HeadersPromised | crates/memcore-common/src/redaction/sanitizer.rs:142-182 | In every output, behind each "authorization:" stand white space, perhaps "Bearer ", and "[REDACTED]". |
| RedactionPromises.KeysPromised | crates/memcore-common/src/redaction/sanitizer.rs:48-52 | In every output, behind each of the fourteen keys with "=" or ":" that continues no word stands "[REDACTED]", with at most white space and quotes between. |
| RedactionPromises.OrdinaryTextStays | crates/memcore-common/src/redaction/sanitizer.rs:19-59 | Text without ":", "=", "-", "_" and "bearer " comes through unchanged, whatever passes are on. |
| RedactionOverreach.HeaderSecretShows | crates/memcore-common/src/redaction/sanitizer.rs:22-26 | With the bearer passes on, every enabled scheme has a message whose output tells two secrets apart. |
| RedactionOverreach.UnconditionallyGoneIff | crates/memcore-common/src/redaction/sanitizer.rs:22-40 | For every configuration, the output is independent of every redacted URL's secret in every message if and only if the bearer passes or all URL passes are off. |
| RedactionStability.SealedScan | crates/memcore-common/src/redaction/sanitizer.rs:142-236 | A header, URL or token pass leaves every hit of its own closed (head, placeholder, delimiter), and keeps closed every hit of each earlier such pass. |
| RedactionStability.OrderlyIdempotent | crates/memcore-common/src/redaction/sanitizer.rs:142-236 | Passes whose needles do not begin inside one another, run in order, leave their own output as it is. |
| RedactionIdempotence.QuietConfigIdempotent | crates/memcore-common/src/redaction/sanitizer.rs:19-46 | With the key patterns off, redacting twice is redacting once, for every message and every choice of the other passes. |
| RedactionIdempotence.KeyConfigIsNot | crates/memcore-common/src/redaction/sanitizer.rs:48-52 | With them on, there is a message that a second redaction changes again, whatever else is on. |
| RedactionIdempotence.RedactTwiceIff | crates/memcore-common/src/redaction/sanitizer.rs:19-59 | For every configuration, redacting twice is redacting once on every message if and only if the key patterns are off. |
| JsonRedaction.RedactJsonValue | crates/memcore-common/src/redaction/sanitizer.rs:65-77 | The recursive rewriter computes the specified value. |
| JsonRedaction.RedactObject | crates/memcore-common/src/redaction/sanitizer.rs:123-133 | Filling a new object field by field, in any order, gives the specified object. |
| JsonRedaction.SecretsAreGone | crates/memcore-common/src/redaction/sanitizer.rs:123-140 | Two values that differ only beneath sensitive keys, at any depth, are redacted to the same value. |
| JsonRedaction.ShapeIsKept | crates/memcore-common/src/redaction/sanitizer.rs:65-77 | Along every path: in front of a sensitive key, keys, array lengths and non-string scalars are unchanged and strings are redacted; at the key stands the placeholder and nothing below. |
| JsonRedaction.JsonUrlsStayRedacted | crates/memcore-common/src/redaction/sanitizer.rs:65-77 | In every string at every depth of a redacted value, enabled URL schemes are followed by the placeholder. |
| JsonRedaction.SensitiveIff | crates/memcore-common/src/redaction/sanitizer.rs:135-140 | A key is sensitive if and only if it is one of the fourteen names, in any case, with dashes for underscores and white space around it at will. |
| JsonRedaction.KeyDecides | crates/memcore-common/src/redaction/sanitizer.rs:123-133 | In a redacted object the value of such a key is "[REDACTED]", and every other value is redacted in turn. |
| Ordering.TextIs | crates/memcore-storage/src/mocks.rs:206-220 | The text of a UUID is its bytes in lower-case hexadecimal, with hyphens in the four places. |
| Ordering.LexIs | crates/memcore-storage/src/mocks.rs:206-220 | The order compares by the first difference, a proper beginning first. |
| Ordering.TextOrder | crates/memcore-storage/src/mocks.rs:206-220 | The hyphenated lower-case text of UUIDs, which the cursor compares, orders as their bytes, which the sort compares. |
| Ordering.SortSorts | crates/memcore-storage/src/mocks.rs:214-218 | The sort yields a sorted permutation for every total preorder. |
| Pagination.NextPageShrinks | crates/memcore-core/src/pagination/cursor.rs:59-75 | With a limit of at least 1, each next cursor leaves strictly fewer items, so following cursors ends. |
| Pagination.ExactlyOnce | crates/memcore-core/src/pagination/cursor.rs:11-75 | Following the cursors concatenates to the complete sorted list for every page size up to a bound if and only if no two items share time and id. |
| Pagination.SortUnique | crates/memcore-storage/src/mocks.rs:206-219 | Items with distinct keys are listed alike in whatever order the map yields them. |
| FactStore.MockFactStore.constructor | crates/memcore-storage/src/mocks.rs:107-116 | A new store is empty and satisfies the invariant. |
| FactStore.MockFactStore.InsertFact | crates/memcore-storage/src/mocks.rs:128-141 | Stores the caller's fact under a free id, or answers forbidden or conflict and changes nothing; keeps the invariant. |
| FactStore.MockFactStore.UpdateFact | crates/memcore-storage/src/mocks.rs:143-157 | Replaces the caller's own fact and leaves its tombstone, or answers forbidden or not found and changes nothing. |
| FactStore.MockFactStore.GetFact | crates/memcore-storage/src/mocks.rs:159-174 | Answers the fact if it is stored, the caller's and not tombstoned. |
| FactStore.MockFactStore.SearchFacts | crates/memcore-storage/src/mocks.rs:176-221 | Whatever order the map is visited in, the page is the specified one: the selected facts behind the cursor, newest first, one more than the limit. |
| FactStore.MockFactStore.SoftDeleteFact | crates/memcore-storage/src/mocks.rs:223-238 | Tombstones the caller's own fact, or answers not found or forbidden and changes nothing. |
| FactStore.MockFactStore.DeleteUserData | crates/memcore-storage/src/mocks.rs:240-249 | Removes the tenant's facts and every tombstone without a fact. |
| FactStore.MockFactStore.MatchingIds | crates/memcore-storage/src/mocks.rs:257-270 | Collects exactly the ids of the tenant's visible facts older than the cutoff, each once. |
| FactStore.MockFactStore.DeleteFactsOlderThan | crates/memcore-storage/src/mocks.rs:251-285 | Tombstones exactly those ids and reports them, or on a dry run only counts them. |
| FactStore.MockFactStore.CountFactsByOrg | crates/memcore-storage/src/mocks.rs:287-295 | The number of ids of the organization that `get_fact` answers to their own users. |
| FactStore.MockFactStore.CountFactsByUser | crates/memcore-storage/src/mocks.rs:297-305 | The number of ids that `get_fact` answers to the tenant. |
| FactStore.MockFactStore.CountUsersByOrg | crates/memcore-storage/src/mocks.rs:307-317 | The loop counts the distinct users of the organization's visible facts. |
| FactStore.MockFactStore.Aggregates | crates/memcore-storage/src/mocks.rs:326-337 | In any visiting order, the accumulated map has an entry for exactly the users with facts: their number and latest change. |
| FactStore.MockFactStore.Rows | crates/memcore-storage/src/mocks.rs:339-352 | The rows behind the cursor, each user's once. |
| FactStore.MockFactStore.ListUsersByOrg | crates/memcore-storage/src/mocks.rs:319-361 | The page of users is the specified one, whatever the visiting orders. |
| FactViews.FactPagesExactlyOnce | crates/memcore-storage/src/mocks.rs:206-220 | In every valid state and for every page size, calling `search_facts` with cursor after cursor shows each selected fact exactly once, strictly descending by time and id. |
| FactViews.UserPagesExactlyOnce | crates/memcore-storage/src/mocks.rs:346-360 | Calling `list_users_by_org` with cursor after cursor shows each user exactly once, most recent first. |
| FactViews.CountsAreVisible | crates/memcore-storage/src/mocks.rs:287-305 | The two fact counters agree with what `get_fact` answers, id by id. |
| FactViews.UsersHaveFacts | crates/memcore-storage/src/mocks.rs:307-317 | A user is counted if and only if its own count is positive. |
| FactViews.OrgCountIsSum | crates/memcore-storage/src/mocks.rs:287-305 | The organization's count is the sum of its users' counts, over any set of users that misses none. |
| FactViews.ListingAgrees | crates/memcore-storage/src/mocks.rs:319-361 | The untruncated listing has one row per counted user, with that user's count and the maximum of its change times. |
| FactRuns.RunValid | crates/memcore-storage/src/mocks.rs:128-285 | After any run, every fact is filed under its own id and every tombstone belongs to a stored fact. |
| FactRuns.InsertedIsVisible | crates/memcore-storage/src/mocks.rs:128-174 | In every reachable state an accepted insert is at once visible to its tenant. |
| FactRuns.NeverResurrected | crates/memcore-storage/src/mocks.rs:143-174 | After a soft delete, no calls of anyone, updates included, make the fact visible again until its owner is forgotten. |
| FactRuns.VisibleAfterForget | crates/memcore-storage/src/mocks.rs:240-249 | An id freed by forgetting its tenant can be inserted again and is visible. |
| FactRuns.IsolatedIff | crates/memcore-storage/src/mocks.rs:127-305 | From every valid state and for every run, a tenant's answers agree call by call, up to the wording of a refusal, with those of the run with everyone else's calls removed if and only if no insert of its own meets an id held by someone else; and then its part of the state is that run's state. |
| FactRuns.TenantIsolation | crates/memcore-storage/src/mocks.rs:127-305 | In every run in which no two tenants insert the same id, a tenant's part of the state equals the state of the run with everyone else's calls removed, and its answers agree call by call up to the wording of a refusal. |
| FactRuns.RefusalsDiffer | crates/memcore-storage/src/mocks.rs:143-158 | An answer differs from the one given in isolation if and only if the call reaches for a fact stored for someone else. |
| FactRuns.SharedIdInterferes | crates/memcore-storage/src/mocks.rs:128-141 | If two tenants do insert the same id, the second one is refused although it would be accepted alone. |
| FactRuns.DryRunForetells | crates/memcore-storage/src/mocks.rs:251-285 | A dry run changes nothing and reports what an immediate run removes; that run hides exactly the tenant's facts older than the cutoff, and a second one removes nothing. |
| FactRuns.RetentionComposes | crates/memcore-storage/src/mocks.rs:251-285 | Runs at two cutoffs leave the state of one run at the later cutoff, and their counts and ids add up to its. |
| FactRuns.RetentionIsLocal | crates/memcore-storage/src/mocks.rs:257-270 | Retention of one tenant leaves every other tenant's part of the state as it was. |
| FactSearch.SearchAnswers | crates/memcore-storage/src/mocks.rs:176-221 | Searching page by page shows exactly the tenant's stored facts that are not tombstoned, unless those are asked for, of the listed types and with the text in content or summary up to ASCII case. |
| FactSearch.SearchIsGetting | crates/memcore-storage/src/mocks.rs:159-189 | Without filters, a search finds exactly what `get_fact` answers. |
| FactSearch.SearchWithDeleted | crates/memcore-storage/src/mocks.rs:183-189 | Asked for tombstoned facts, too, it finds exactly what is stored for the tenant. |
| FactSearch.FiltersNarrow | crates/memcore-storage/src/mocks.rs:190-205 | A type list keeps exactly the facts of these types; a text exactly those in whose content or summary it stands. |
| FactSearch.NewestFirst | crates/memcore-storage/src/mocks.rs:214-218 | Facts are shown newest first, and by descending bytes of the id among equals. |
| FactSearch.InsertEffect | crates/memcore-storage/src/mocks.rs:128-141 | In every reachable state an insert is accepted if and only if the caller owns the fact and the id is free; then the fact is got at once, and nothing else changes. |
| FactSearch.UpdateEffect | crates/memcore-storage/src/mocks.rs:143-157 | In every reachable state an update is accepted if and only if the caller owns the fact and the stored one; then the new version, and no older one, is stored, it is got unless tombstoned, and nothing else changes. |
| FactSearch.SoftDeleteEffect | crates/memcore-storage/src/mocks.rs:223-238 | In every reachable state a soft delete is accepted if and only if the fact is the caller's; then nobody gets it, it stays stored, and nothing else changes. |
| FactSearch.ForgetEffect | crates/memcore-storage/src/mocks.rs:240-249 | Forgetting a tenant leaves nothing stored for it and everything else, tombstones included, as it was. |
| FactSearch.RetainEffect | crates/memcore-storage/src/mocks.rs:251-285 | A retention run keeps every fact stored and hides exactly the tenant's visible facts last changed before the cutoff. |
| FactSearch.UsersMostRecentFirst | crates/memcore-storage/src/mocks.rs:354-358 | Users are listed most recent change first, and by descending name among equals. |
| FactSearch.NeverFoundAgain | crates/memcore-storage/src/mocks.rs:183-189 | After a soft delete, no later calls make a search without tombstoned facts show the fact until its owner is forgotten. |
| EventStore.MockMemoryEventStore.RecordEvent | crates/memcore-storage/src/mocks.rs:470-481 | Appends the caller's own event, or answers forbidden and changes nothing. |
| EventStore.MockMemoryEventStore.DeleteEventsOlderThan | crates/memcore-storage/src/mocks.rs:592-613 | Removes the stale events, keeps the order of the others and reports how many went. |
| EventStore.DryRunForetells | crates/memcore-storage/src/mocks.rs:592-613 | A dry run foretells the count; the run keeps exactly the events that are not stale; a second one removes nothing. |
| EventStore.RetentionComposes | crates/memcore-storage/src/mocks.rs:592-613 | Runs at two cutoffs leave the list of one run at the later cutoff, in the same order, and the counts add up. |
| EventStore.RetentionIsLocal | crates/memcore-storage/src/mocks.rs:610-610 | The events of every other tenant survive, in their order. |
| EventStore.EventPagesExactlyOnce | crates/memcore-storage/src/mocks.rs:483-590 | For both listings and every permitted page size, following the cursors shows every wanted event in order exactly once if and only if no two wanted events share time and id. |
| EventStore.ZeroLimit | crates/memcore-storage/src/mocks.rs:483-530 | With limit 0 the user listing answers at most one event, and what the organization listing answers if and only if at most one wanted event lies behind the cursor. |
| EventSearch.ListingShows | crates/memcore-storage/src/mocks.rs:483-590 | Both listings show only recorded events of the organization, user, fact, operation, time and text asked for; with room for all, exactly those. |
| EventSearch.PageShows | crates/memcore-storage/src/mocks.rs:516-520 | A page behind a cursor shows only events that are older, or as old with a smaller id text. |
| EventSearch.EventsNewestFirst | crates/memcore-storage/src/mocks.rs:524-528 | A page lists newer events first, and by descending id text among equals. |
| EventSearch.Limits | crates/memcore-storage/src/mocks.rs:33-47 | More than two hundred rows are refused; an organization listing without a limit is one of fifty. |
| EventSearch.PruneKeeps | crates/memcore-storage/src/mocks.rs:610-612 | A retention run removes exactly the tenant's events from before the cutoff and reports their number. |
| Similarity.CauchySchwarz | crates/memcore-storage/src/mocks.rs:96-98 | The squared dot product is at most the product of the squared norms, for all vectors. |
| Similarity.ScoreBounds | crates/memcore-storage/src/mocks.rs:91-105 | Every score lies in [-1, 1], also for empty, unequal or zero vectors, and is not negative if and only if the lengths differ or the dot product is not. |
| Similarity.NegativeScore | crates/memcore-storage/src/mocks.rs:91-105 | Opposite vectors score below 0. |
| Similarity.SelfScore | crates/memcore-storage/src/mocks.rs:91-105 | A vector scores 1 against itself unless it is zero, and then 0. |
| SimilarityLaws.ScoreTimesNorms | crates/memcore-storage/src/mocks.rs:96-104 | A score times both norms is the dot product. |
| SimilarityLaws.LawOfCosines | crates/memcore-storage/src/mocks.rs:91-105 | The squared distance of two vectors is the sum of their squared norms less twice the score times the norms. |
| SimilarityLaws.UnitScore | crates/memcore-storage/src/mocks.rs:91-105 | For unit vectors the score is the dot product, and the squared distance is 2 - 2 times the score. |
| SimilarityLaws.ScaleInvariant | crates/memcore-storage/src/mocks.rs:91-105 | Scaling a vector by a positive factor does not change its scores. |
| SimilarityLaws.ScoreSymmetric | crates/memcore-storage/src/mocks.rs:91-105 | Scores are symmetric. |
| SimilarityLaws.ScoreOneIff | crates/memcore-storage/src/mocks.rs:91-105 | Two vectors that are not zero score 1 if and only if one is a positive multiple of the other. |
| SimilarityLaws.ThreeFifths | crates/memcore-storage/src/mocks.rs:91-105 | [1, 0] and [3, 4] score 0.6. |
| Embedding.EncodeRoundTrip | crates/memcore-providers/src/mocks.rs:35-35 | Decoding the UTF-8 bytes of a character gives it back. |
| Embedding.AccumulatedIs | crates/memcore-providers/src/mocks.rs:34-38 | Each position holds the sum of the bytes that go to it, divided by 255. |
| Embedding.XorBits | crates/memcore-providers/src/mocks.rs:36-36 | Exclusive or adds each pair of bits without carry. |
| Embedding.SlotIs | crates/memcore-providers/src/mocks.rs:36-36 | The position is 17 times the index for a NUL, 31 times the byte at the start, each modulo the dimensions, and different for different bytes at one index where there is room. |
| Embedding.EmbeddingDistance | crates/memcore-core/src/dedup/embedding.rs:10-11 | Two embeddings that are not zero score their dot product, and lie the closer the higher. |
| Embedding.Accumulate | crates/memcore-providers/src/mocks.rs:34-38 | The in-place loop leaves in the array the vector accumulated from all bytes, slots in wrapping 64-bit arithmetic. |
| Embedding.Normalize | crates/memcore-providers/src/mocks.rs:40-45 | The in-place loop divides every element by the norm the array had at the start. |
| Embedding.DeterministicEmbedding | crates/memcore-providers/src/mocks.rs:21-48 | Refuses blank text and zero dimensions, and otherwise answers the specified embedding. |
| Embedding.EmbeddingIsUnit | crates/memcore-providers/src/mocks.rs:34-47 | An embedding is non-negative; it has unit norm if the text holds anything but NUL characters, and is zero otherwise. |
| Embedding.EmbeddingScores | crates/memcore-core/src/dedup/embedding.rs:10-11 | Any two embeddings score in [0, 1], and one that is not zero scores 1 against itself. |
| Deduplication.BestHit | crates/memcore-storage/src/mocks.rs:390-427 | The search answers hits best first, and its first hit is that of a wanted record no other wanted record beats. |
| Deduplication.DisabledReportsNothing | crates/memcore-core/src/dedup/embedding.rs:19-21 | Switched off, detection reports nothing. |
| Deduplication.SearchShows | crates/memcore-storage/src/mocks.rs:390-427 | A search answers only hits of records of the tenant, types and metadata asked for, with their scores; with room for all, exactly those. |
| Deduplication.TopKLosesNothing | crates/memcore-core/src/dedup/embedding.rs:12-47 | With a search limit of at least 1, a duplicate is reported if and only if some record of the tenant and memory type reaches the threshold, and the reported fact has the highest score of all. |
| Backup.SanitizedIsTidy | crates/memcore-core/src/backup/service.rs:18-40 | A sanitized label has only letters, digits, underscores and dashes, none of them leading, trailing or doubled. |
| Backup.TidyIsFixed | crates/memcore-core/src/backup/service.rs:18-40 | The sanitizer leaves a label as it is if and only if it is tidy. |
| Backup.SanitizedIs | crates/memcore-core/src/backup/service.rs:18-40 | A sanitized label is the given one's maximal runs of letters, digits and underscores, in order, joined by dashes; there is none if and only if there are no runs. |
| Backup.RecognizedIff | crates/memcore-core/src/backup/service.rs:101-103 | A name is recognized if and only if it is the prefix, anything, and the suffix. |
| Backup.SanitizeIdempotent | crates/memcore-core/src/backup/service.rs:18-40 | Sanitizing twice is sanitizing once. |
| Backup.BuiltIsRecognized | crates/memcore-core/src/backup/service.rs:43-51 | Every built name is recognized as a backup. |
| Backup.NameDetermines | crates/memcore-core/src/backup/service.rs:43-51 | For four-digit years, two built names are equal if and only if the times to the second and the sanitized labels are. |
| Backup.Directory.Collect | crates/memcore-core/src/backup/service.rs:138-160 | Collects exactly the backups with their times, each once, in whatever order the directory is read. |
| Backup.Directory.Rotate | crates/memcore-core/src/backup/service.rs:127-177 | What is gone are the oldest backups by time and name, everything else is untouched; on success the result is their number, which is the excess; on failure the next oldest could not be removed. |
| Backup.Directory.RemoveFirst | crates/memcore-core/src/backup/service.rs:168-176 | The removal loop removes the oldest files one by one up to the first failure. |
| Backup.KeepsTheNewest | crates/memcore-core/src/backup/service.rs:162-176 | A completed rotation leaves the smaller of n and k backups, each newer than each removed one, all other files as they were, and nothing for a second rotation to remove. |
| Backup.RemovedIsOlder | crates/memcore-core/src/backup/service.rs:155-162 | Of two backups with readable times the removed one is not the newer, names break ties, and an unreadable time counts as the epoch. |
| Backup.OldestUnique | crates/memcore-core/src/backup/service.rs:162-175 | Which files go is determined by the directory's contents. |

## Left out

- RedactionEndToEnd.UrlSecretIsGone: with the bearer passes on, its condition on the message is sufficient, not necessary.
- RedactionUrlSecrets.UrlSecretHidden: the same holds of its wider condition; `UnconditionallyGoneIff` says exactly for which configurations no condition is needed.
- Non-ASCII text in the redactor: the source counts white space in characters and uses the count as a byte offset.
- `redact_emails`, which is off by default.
- Interleavings inside one store method: every method is one atomic step, although `delete_facts_older_than` releases its locks between reading and writing.
- Floating-point rounding and NaN: scores and embeddings are exact reals.
- Upserting and deleting vectors: the vector store is a given collection of records, read in any order; its metadata values are strings.
- The base64/JSON encoding of cursors, and the saturation of `limit + 1` at the largest machine integer.
- Errors while reading the backup directory; failing removals are modelled.
- Fields of facts and events that the store does not read, and error messages.
- The API-key store: its listing follows the same pagination and would add only easy members.
- The persistent stores (SQLite, Postgres, Qdrant, Redis), the memory engine, providers, jobs, context cache and circuit breaker.
- Settings, DTOs, routers, middleware other than the limiter, metrics, logging and start-up: flat branching and plumbing.
