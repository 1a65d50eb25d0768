# aremos practice core in Dafny

aremos is a flashcard trainer. This project models its core:

- **The practice-session scheduler.** A session walks a learner through a deck in rounds. A card is mastered ("done") after two correct answers. When a round's queue runs empty, the next queue is rebuilt with the cards judged wrong ahead of the cards judged right.
- **The in-memory session store.** It wraps an engine state with its owner, its deck and a card table. Every read checks the owner and an idle timeout of two hours, and a periodic sweep evicts idle sessions.
- **The practice HTTP handlers.** Start, answer, status, finish and cancel, composed from the store and the engine.
- **The shared infrastructure around them:**
  - page/page-size parsing;
  - the fixed-window rate limiter, with its global limit of 150 requests per 60 000 ms per client address;
  - the table of revoked tokens;
  - the login lockout: the tenth failure locks the address/name pair for thirty minutes.
- **Two pieces of front-end logic:**
  - the calendar helpers: month length, the weekday of the first day, and `YYYY-MM-DD` formatting;
  - from the decks page, the per-card performance grid and the deck filter.

**How the source's forms are kept:**

- The engine is a set of pure functions on an explicit `SessionState` value, as in the source. The two operations the source writes as loops, `initSession` and `buildNextRoundLists`, are also loop methods, each proved equal to its function.
- The store, the limiter, the revocation table and the lockout table are module-level `Map`s that the source mutates. Each becomes a `class` whose `map` field the methods reassign. The map each method leaves behind is tied to a function of the old map, and lemmas about those functions carry the properties.
- The handlers are methods on the store. They answer either a reply or an HTTP status.
- The performance grid keeps its two-dimensional array.

**What becomes a parameter, and what is not modelled:**

- The clock (`Date.now()`), the fresh session id (`randomUUID()`), the authenticated user, the deck the database returns, and whether the database write succeeds are all parameters.
- Password, licence and token checks enter only as their outcome.

Modules, one per source file: `Engine` (aremos.engine.ts), `SessionStore` (practice.session-store.ts), `PracticeController` (practice.controller.ts), `Pagination` (pagination.ts), `RateLimit` (rate-limit.ts), `JwtBlacklist` (jwt-blacklist.ts), `AuthLockout` (auth.controller.ts), `Date` (date.ts) and `DecksPage` (decks/page.tsx). `Wrappers` holds `Option` and `Result`. `Text` holds `String(n)` for integers, digit reading, ASCII lower-casing and substring search. `Arith` holds four lemmas about integer multiplication, division and remainder that the calendar proofs use.

**Where the code and its own comments or error handling disagree, the model follows the code:**

- **The round end drops cards.** The doc comment inside `buildNextRoundLists` (aremos-backend/src/services/aremos.engine.ts:157) says the rebuild processes "all cards that were in the current round".
  - The code instead calls `buildNextRoundLists` with `session.queue` (aremos.engine.ts:122), the queue before the answered card was removed. When the round ends that queue holds nothing but the card just answered.
  - So the next round holds that card again (unless it is now done) or nothing, and every other unmastered card of the round is dropped.
  - `Engine.RoundEndKeepsOnlyAnsweredCard` states this for every valid state.
  - `Engine.ThreeCardRound` replays a three-card round: the card answered wrongly is gone from the next round and is refused with `CardNotInRound`.
- **Engine errors become status 500.** The engine's three checks (aremos.engine.ts:74-85) throw plain `Error`s, which carry no `status`. The shared error handler answers `err?.status || 500` (aremos-backend/src/helpers/errors.helper.ts:15), so these caller mistakes reach the client as 500, and the model answers 500.

## Model

| member | source | states |
|---|---|---|
| Text.IntToString | aremos-backend/src/controllers/practice.controller.ts:17 | `String(n)`: non-empty; all digits for n ≥ 0; a leading minus sign for n < 0 |
| Text.IntToStringInjective | aremos-backend/src/services/practice.session-store.ts:8 | different integer ids never render to the same card-table key |
| Text.Lower | aremos-frontend/app/decks/page.tsx:560 | lower-casing keeps the length and maps every character on its own |
| Text.ContainsIffOccurs | aremos-frontend/app/decks/page.tsx:560 | the `includes` scan succeeds exactly when the needle occurs at some index of the haystack |
| Text.Contains | aremos-frontend/app/decks/page.tsx:560 | `includes`: a match never has a longer needle than haystack, and the empty needle is found in every string |
| Engine.InitialState | aremos-backend/src/services/aremos.engine.ts:44-66 | a new session is in round 1 with an empty history; its queue lists the card ids in deck order; exactly the queued ids have a state, and every such state has no correct answers and is not done |
| Engine.InitSession | aremos-backend/src/services/aremos.engine.ts:44-66 | the loop builds exactly `InitialState` of the cards |
| Engine.NextRoundListsClassify | aremos-backend/src/services/aremos.engine.ts:157-185 | no done card lands in either list; the wrong list holds only cards judged wrong and the right list only cards judged right; the card just answered is judged by that answer, and any other card by whether its count is positive |
| Engine.NextRoundLists | aremos-backend/src/services/aremos.engine.ts:148-188 | the two lists together hold no more entries than the queue they are built from |
| Engine.NextRoundListsCounts | aremos-backend/src/services/aremos.engine.ts:157-185 | each queue entry whose card is not done lands in exactly one list, as often as it occurs in the queue; done cards land in neither |
| Engine.NextRoundListsKeepOrder | aremos-backend/src/services/aremos.engine.ts:157-185 | each list keeps the relative order the cards had in the queue |
| Engine.BuildNextRoundLists | aremos-backend/src/services/aremos.engine.ts:148-188 | the loop returns exactly the lists of `NextRoundLists` (classified, counted and ordered as the three lemmas above state) |
| Engine.CloseRound | aremos-backend/src/services/aremos.engine.ts:120-128 | at the round end the round advances, history and card states are kept, the queue of copies of the answered card comes back unless that card is now done, and `completed` holds iff the new queue is empty |
| Engine.NextRoundListsOfRepeated | aremos-backend/src/services/aremos.engine.ts:120-123 | a queue of copies of the answered card is rebuilt into the right list (correct answer) or the wrong list (wrong answer), or into nothing if the card is done |
| Engine.RemoveAll | aremos-backend/src/services/aremos.engine.ts:113 | the filter removes every copy of the answered card and keeps every other id as often as before and in its order |
| Engine.RemoveAllEmpty | aremos-backend/src/services/aremos.engine.ts:113-121 | the filter leaves nothing, and the round ends, exactly when every entry of the queue is the answered card |
| Engine.AnswerCard | aremos-backend/src/services/aremos.engine.ts:72-142 | the three errors are raised in the source's order, and success happens exactly when the card is known, not done and queued. On success: only the answered card's state changes (+1 on a correct answer, done on reaching 2); the history gains the answer in the current round; mid-round, the round stays and the queue loses the card; at the round end, the round advances, the queue becomes the rebuilt one (empty if the card is now done), and `completed` holds iff that queue is empty |
| Engine.GetNextCardId | aremos-backend/src/services/aremos.engine.ts:194-200 | null exactly when the queue is empty, otherwise its head |
| Engine.InitialStateValid | aremos-backend/src/services/aremos.engine.ts:44-66 | a deck with distinct ids starts in the session invariant: the queue is distinct and holds known, undone cards; each count equals the correct answers in the history; done iff count ≥ 2; round ≥ 1 |
| Engine.AnswerKeepsQueueValid | aremos-backend/src/services/aremos.engine.ts:112-128 | after an accepted answer the queue is still distinct and holds only known cards that are not done |
| Engine.AnswerKeepsCountsValid | aremos-backend/src/services/aremos.engine.ts:94-110 | after an accepted answer every card's count is still its number of correct answers in the history, and done still means two of them |
| Engine.AnswerPreservesValid | aremos-backend/src/services/aremos.engine.ts:72-142 | every accepted answer keeps a session in the invariant |
| Engine.NextCardIsAnswerable | aremos-backend/src/services/aremos.engine.ts:74-85 | in a valid session the card `getNextCardId` offers is always accepted |
| Engine.RoundEndKeepsOnlyAnsweredCard | aremos-backend/src/services/aremos.engine.ts:120-128 | in a valid session a round ends only when the queue was just the answered card, and the next round is that card or nothing |
| Engine.AnsweredCardRejectedInSameRound | aremos-backend/src/services/aremos.engine.ts:78-85 | a card answered mid-round is refused if answered again in the same round (already done, or no longer in the round) |
| Engine.WrongAnswerRepeatsLastCard | aremos-backend/src/services/aremos.engine.ts:120-128 | a wrong answer to the last card of a round makes that card the whole next round, in a valid state that has not completed; nothing bounds a session's length |
| Engine.RemoveAllHead | aremos-backend/src/services/aremos.engine.ts:113 | removing a card that occurs once, at the front, leaves the rest of the queue |
| Engine.AnswerHeadMidRound | aremos-backend/src/services/aremos.engine.ts:113-118 | answering the head of a queue with more cards behind it succeeds, keeps the round, and leaves the rest of the queue |
| Engine.ThreeCardRound | aremos-backend/src/services/aremos.engine.ts:72-142 | three fresh cards answered right, wrong, right: the round advances, the next queue is only the last card, the session has not completed, and the card answered wrongly (not done) is refused as not in the round |
| Engine.ThreeCardStart | aremos-backend/src/services/aremos.engine.ts:44-66 | a new session over three cards with distinct ids starts in round 1 with the cards queued in deck order and each with a fresh state: exactly the start `ThreeCardRound` needs |
| Engine.SingleCardMastered | aremos-backend/src/services/aremos.engine.ts:94-98 | a single card answered right twice: round 2 repeats it; after the second answer it is done, the queue is empty, the session has completed in round 3, and no next card is offered |
| Engine.DeserializeSession | aremos-backend/src/services/aremos.engine.ts:212-226 | a parsed value is accepted exactly when its `round` and `cardStates` are truthy (any falsy value: missing, null, false, 0, empty string, rejects) and its `queue` and `history` are arrays; an accepted value is an object returned as it is, and every rejection is the one format error |
| Engine.QueueRoundTrip | aremos-backend/src/services/aremos.engine.ts:205-207 | the serialized queue reads back as the same queue |
| Engine.SerializeSession | aremos-backend/src/services/aremos.engine.ts:205-207 | the serialized value is an object with exactly the fields `round`, `queue`, `cardStates` and `history`, the round as a number and the queue and history as arrays |
| Engine.CardStateRoundTrip | aremos-backend/src/services/aremos.engine.ts:205-207 | one serialized card state reads back as the same state |
| Engine.EntryRoundTrip | aremos-backend/src/services/aremos.engine.ts:205-207 | one serialized history entry reads back as the same entry |
| Engine.CardStatesRoundTrip | aremos-backend/src/services/aremos.engine.ts:205-207 | the serialized card states read back as the same map |
| Engine.HistoryRoundTrip | aremos-backend/src/services/aremos.engine.ts:205-207 | the serialized history reads back as the same history |
| Engine.SerializeThenDeserialize | aremos-backend/src/services/aremos.engine.ts:205-226 | a serialized state passes the deserializer's check exactly when its round is not 0, and comes back unchanged |
| Engine.SerializeRoundTrip | aremos-backend/src/services/aremos.engine.ts:205-207 | reading a serialized state back as a `SessionState` gives the original state |
| SessionStore.CardIndexKeys | aremos-backend/src/services/practice.session-store.ts:8 | every entry of the card table is one of the session's cards, filed under the string form of its own id (with CardIndexFindsEveryCard: the keys are exactly those ids) |
| SessionStore.CardIndex | aremos-backend/src/services/practice.session-store.ts:8 | every card in the table is filed under the string form of its own id, and the last card of the deck is stored under its id (a later card with the same id replaces an earlier one) |
| SessionStore.CardIndexFindsEveryCard | aremos-backend/src/services/practice.session-store.ts:8 | every card's id is a key, and the card stored under it carries that id |
| SessionStore.CardIndexOfDistinctIds | aremos-backend/src/services/practice.session-store.ts:8 | with distinct ids the card stored under an id is exactly the card with that id |
| SessionStore.Lookup | aremos-backend/src/services/practice.session-store.ts:11-14 | a record is returned exactly when it exists, belongs to the caller and has not been idle for longer than its time to live; it comes back with its activity set to now |
| SessionStore.AfterLookup | aremos-backend/src/services/practice.session-store.ts:11-14 | a read changes no other record; the owner's idle record is deleted, the owner's live record is refreshed, and another user's record stays in the table with its value unchanged (neither evicted nor refreshed) |
| SessionStore.Unexpired | aremos-backend/src/services/practice.session-store.ts:17 | the sweep keeps exactly the records that are not idle too long, unchanged |
| SessionStore.SweepInvisibleToLookup | aremos-backend/src/services/practice.session-store.ts:17 | a sweep never changes what a later read returns |
| SessionStore.SweepIdempotent | aremos-backend/src/services/practice.session-store.ts:17 | a second sweep at the same moment removes nothing more |
| SessionStore.LookupRefreshes | aremos-backend/src/services/practice.session-store.ts:13 | a record just read is not idle, neither the returned one nor the one left in the table |
| SessionStore.Store.constructor | aremos-backend/src/services/practice.session-store.ts:6 | the table starts empty |
| SessionStore.Store.CreateSession | aremos-backend/src/services/practice.session-store.ts:7-10 | stores under the new id a record owned by the caller, with the card table, started and active now, with a two-hour time to live; every other record is kept; records stay under their own id |
| SessionStore.Store.GetSession | aremos-backend/src/services/practice.session-store.ts:11-14 | answers `Lookup` and leaves the table `AfterLookup` describes |
| SessionStore.Store.UpdateState | aremos-backend/src/services/practice.session-store.ts:15 | a present record gets the new state and fresh activity, with no owner check; an absent id changes nothing |
| SessionStore.Store.RemoveSession | aremos-backend/src/services/practice.session-store.ts:16 | exactly that id is gone |
| SessionStore.Store.Sweep | aremos-backend/src/services/practice.session-store.ts:17 | the pass over the entries leaves exactly `Unexpired` of the old table |
| PracticeController.View | aremos-backend/src/controllers/practice.controller.ts:21 | the card sent to the client keeps id and question; a non-empty image url is sent unchanged, and an empty or missing one as null |
| PracticeController.CardsForAlgo | aremos-backend/src/controllers/practice.controller.ts:17 | one engine card per deck card, in order, with the id's string form |
| PracticeController.StartStateValid | aremos-backend/src/controllers/practice.controller.ts:17-18 | a deck with distinct card ids starts a session in the engine's invariant |
| PracticeController.Interactions | aremos-backend/src/controllers/practice.controller.ts:56 | one interaction per history entry, in order, with its card, round and correctness |
| PracticeController.CorrectCount | aremos-backend/src/controllers/practice.controller.ts:65 | the number of right answers is the number of positions holding a right answer (so no more than the interactions) |
| PracticeController.CardIdsBound | aremos-backend/src/controllers/practice.controller.ts:65 | no more distinct cards than interactions |
| PracticeController.MaxRound | aremos-backend/src/controllers/practice.controller.ts:65 | `Math.max(1, ...rounds)` is at least 1 and every round, and is 1 or one of the rounds |
| PracticeController.Summarize | aremos-backend/src/controllers/practice.controller.ts:65 | `correctCount` is the number of right answers and `cards` the number of distinct cards answered; right plus wrong is the number of interactions; the card count is at most that, and 0 exactly when there were none; the round count is at least 1 and every round, and is 1 or a recorded round |
| PracticeController.StoredDuration | aremos-backend/src/controllers/practice.controller.ts:64 | a duration of at least 1 ms is stored as it is; a missing, zero or negative duration is stored as 1 ms |
| PracticeController.FirstCardShown | aremos-backend/src/controllers/practice.controller.ts:20-21 | the first card a new session offers is the first deck card's id, and the card table shows a card with that id (that very card when ids are distinct) |
| PracticeController.StartSession | aremos-backend/src/controllers/practice.controller.ts:10-23 | 401 without a user, 403 for a deck not the user's, 400 for an empty deck, each leaving the store unchanged; otherwise it stores a new record with the initial engine state and replies with the session id, the card total, round 1 and the first deck card (exactly that card when ids are distinct) |
| PracticeController.AnswerPractice | aremos-backend/src/controllers/practice.controller.ts:26-38 | 401 without a user; 404 when the read finds nothing. An engine error gives 500, with only the read's effect on the store. Otherwise the new state is stored, and the reply is "done" when no next card is queued, else the next card, the round and the cards left (500 when the card table lacks the next id) |
| PracticeController.SessionStatus | aremos-backend/src/controllers/practice.controller.ts:41-48 | 401 without a user; otherwise the read's effect, then 404 or the round, the cards left and the card to show |
| PracticeController.FinishPractice | aremos-backend/src/controllers/practice.controller.ts:51-69 | 401 without a user; 404 when the read finds nothing. Otherwise it saves the user's record of this deck, with the duration and one interaction per answer. When the write fails it answers 500 and keeps the session; otherwise it removes the session and replies with the summary |
| PracticeController.EndSession | aremos-backend/src/controllers/practice.controller.ts:72-78 | 401 without a user; otherwise ok, and the id is gone afterwards unless it belongs to another user, whose record is untouched |
| Pagination.ParsePagination | aremos-backend/src/utils/pagination.ts:30-43 | the page is at least 1 and the page size between 1 and the maximum. In-range values are kept; a too-large size is cut to the maximum; a missing page gives 1. A missing size, or the number 0, gives the default; the string "0" gives 1 |
| Pagination.BuildPaginatedResponse | aremos-backend/src/utils/pagination.ts:48-59 | the envelope carries the items, the total and the parsed page and size |
| Pagination.SkipIsWholePages | aremos-backend/src/utils/pagination.ts:40 | `skip` is non-negative, a multiple of the page size, and counts exactly the pages before this one |
| Pagination.ConsecutivePagesAbut | aremos-backend/src/utils/pagination.ts:40 | page p + 1 starts where page p ends, with no gap and no overlap |
| Pagination.ResponseParsesBack | aremos-backend/src/utils/pagination.ts:48-59 | a response's page and size, sent back as the next query, parse to the same pagination |
| RateLimit.ClientIp | aremos-backend/src/plugins/rate-limit.ts:22 | a non-empty forwarded-for header wins; without one the socket address is used if non-empty, and `unknown` otherwise; the result is never empty |
| RateLimit.Key | aremos-backend/src/plugins/rate-limit.ts:4 | the key is the scope, a colon, then the address |
| RateLimit.KeyInjective | aremos-backend/src/plugins/rate-limit.ts:4 | scopes without a colon never share a bucket with another scope or address |
| RateLimit.ColonInScopeCollides | aremos-backend/src/plugins/rate-limit.ts:4 | a scope containing a colon can share its bucket with another scope |
| RateLimit.Admit | aremos-backend/src/plugins/rate-limit.ts:5-10 | a missing or ended window restarts empty for `windowMs`. The request is admitted exactly when the count is below the limit, and is then counted. The remaining count is what is left under the limit (0 when refused), and the reset is the window's end |
| RateLimit.AdmitKeepsBound | aremos-backend/src/plugins/rate-limit.ts:8 | a bucket never counts more than the limit |
| RateLimit.OneWindowAdmitsLimit | aremos-backend/src/plugins/rate-limit.ts:5-10 | of the requests inside one window, exactly the first `limit` are admitted |
| RateLimit.StaleBucketIsForgotten | aremos-backend/src/plugins/rate-limit.ts:13-18 | a bucket whose window has ended decides nothing later |
| RateLimit.Live | aremos-backend/src/plugins/rate-limit.ts:13-18 | the sweep keeps exactly the buckets whose window has not ended, unchanged |
| RateLimit.SweepInvisibleToAllow | aremos-backend/src/plugins/rate-limit.ts:13-18 | after a sweep every later request gets the verdict it would have got without it |
| RateLimit.Limiter.constructor | aremos-backend/src/plugins/rate-limit.ts:3 | no buckets at start |
| RateLimit.Limiter.Allow | aremos-backend/src/plugins/rate-limit.ts:5-10 | answers `Admit` on the bucket under `scope:ip` and stores the resulting bucket there, touching no other |
| RateLimit.Limiter.Sweep | aremos-backend/src/plugins/rate-limit.ts:13-18 | the pass leaves exactly `Live` of the old buckets |
| JwtBlacklist.ExpiryRulesAgree | aremos-backend/src/plugins/jwt-blacklist.ts:10-21 | the sweep's rule and the point check's rule agree on every entry at every time |
| JwtBlacklist.Listed | aremos-backend/src/plugins/jwt-blacklist.ts:18-23 | a token is reported revoked exactly when it is listed and its expiry has not passed |
| JwtBlacklist.AfterCheck | aremos-backend/src/plugins/jwt-blacklist.ts:18-23 | a check deletes only the checked token, and only when it has expired |
| JwtBlacklist.Unexpired | aremos-backend/src/plugins/jwt-blacklist.ts:7-12 | the sweep keeps exactly the entries whose expiry has not passed |
| JwtBlacklist.RevokedUntilExpiry | aremos-backend/src/plugins/jwt-blacklist.ts:15-23 | a token just revoked with expiry `exp` is reported revoked until `exp` has passed, and not after |
| JwtBlacklist.SweepInvisibleToCheck | aremos-backend/src/plugins/jwt-blacklist.ts:7-12 | a sweep never changes a later check's answer |
| JwtBlacklist.CheckAgreesWithSweep | aremos-backend/src/plugins/jwt-blacklist.ts:10-21 | a check keeps its token exactly when a sweep at that moment would |
| JwtBlacklist.Blacklist.constructor | aremos-backend/src/plugins/jwt-blacklist.ts:4 | the table starts empty |
| JwtBlacklist.Blacklist.BlacklistToken | aremos-backend/src/plugins/jwt-blacklist.ts:15-17 | stores or overwrites the token's expiry and nothing else |
| JwtBlacklist.Blacklist.IsTokenBlacklisted | aremos-backend/src/plugins/jwt-blacklist.ts:18-23 | answers `Listed` and leaves `AfterCheck` |
| JwtBlacklist.Blacklist.Sweep | aremos-backend/src/plugins/jwt-blacklist.ts:7-12 | the pass leaves exactly `Unexpired` of the old table |
| AuthLockout.KeyFor | aremos-backend/src/controllers/auth.controller.ts:14-17 | the key splits into the client address (resolved as the rate limiter resolves it), a colon at its end, and the name after it |
| AuthLockout.KeyForSeparatesNames | aremos-backend/src/controllers/auth.controller.ts:14-17 | requests from one client address under two different names never share a lockout entry |
| AuthLockout.KeyForInjective | aremos-backend/src/controllers/auth.controller.ts:14-17 | when neither address contains a colon, a shared key means the same address and the same name |
| AuthLockout.ColonInAddressCollides | aremos-backend/src/controllers/auth.controller.ts:14-17 | an address with a colon (IPv6, or a forwarded-for header the client sets) lets two different address/name pairs share one entry: `::1` with `a` and `:` with `1:a` |
| AuthLockout.Fail | aremos-backend/src/controllers/auth.controller.ts:22-28 | a failure adds one to the count, keeping any earlier lock end; reaching ten instead resets the count to 0 and locks until thirty minutes after now |
| AuthLockout.Locked | aremos-backend/src/controllers/auth.controller.ts:18-21 | no entry, no lock end, or a lock end of 0 (falsy) never locks; a locked entry has its lock end still ahead of now |
| AuthLockout.FailKeepsCountBelowMax | aremos-backend/src/controllers/auth.controller.ts:22-28 | the stored count stays between 0 and 9 |
| AuthLockout.LockLastsThirtyMinutes | aremos-backend/src/controllers/auth.controller.ts:18-28 | a lock set by a failure blocks logins for exactly the next thirty minutes |
| AuthLockout.FailuresCount | aremos-backend/src/controllers/auth.controller.ts:22-28 | fewer than ten failures from a clean slate leave their number as the count, with no lock |
| AuthLockout.TenthFailureLocks | aremos-backend/src/controllers/auth.controller.ts:22-28 | the tenth failure from a clean slate locks the key until thirty minutes after it, with the count back at 0 |
| AuthLockout.LoginAttempt | aremos-backend/src/controllers/auth.controller.ts:53-67 | a locked key answers 429 and records nothing; an unknown user answers 404 and a bad licence code or password 401, each recording a failure; success answers 200 and clears the entry |
| AuthLockout.LockedAttemptsChangeNothing | aremos-backend/src/controllers/auth.controller.ts:56 | while locked, every attempt answers 429 and neither extends nor clears the lock |
| AuthLockout.SuccessUnlocks | aremos-backend/src/controllers/auth.controller.ts:63 | after a successful login the next attempt is never locked out |
| AuthLockout.Lockout.constructor | aremos-backend/src/controllers/auth.controller.ts:10 | the table starts empty |
| AuthLockout.Lockout.AssertNotLocked | aremos-backend/src/controllers/auth.controller.ts:18-21 | passes exactly when the entry under `keyFor(request, name)` is not locked |
| AuthLockout.Lockout.RegisterFailure | aremos-backend/src/controllers/auth.controller.ts:22-28 | stores `Fail` of the entry under `keyFor(request, name)`, leaves every other key alone and keeps every count below ten |
| AuthLockout.Lockout.ResetFailures | aremos-backend/src/controllers/auth.controller.ts:29-31 | removes exactly the entry under `keyFor(request, name)` |
| AuthLockout.Lockout.Login | aremos-backend/src/controllers/auth.controller.ts:53-67 | under `keyFor(request, name)`: answers `LoginAttempt`'s status and stores its entry (or removes it), touching no other key |
| Date.Pad2 | aremos-frontend/lib/date.ts:51 | a value 0..9 gets one leading zero; 10 and above, and negatives, are printed in full |
| Date.FormatDateISO | aremos-frontend/lib/date.ts:50-52 | the output starts with the unpadded year and a dash, followed by at least five more characters (two-digit month, dash, two-digit day) |
| Date.Pad2Reads | aremos-frontend/lib/date.ts:51 | a value 0..99 prints as two digits that read back as the value |
| Date.FormatThenParse | aremos-frontend/lib/date.ts:50-52 | for a non-negative year, a month 0..11 and a day 0..99, the output reads back as the same date, with the month 1-based |
| Date.FormatExample | aremos-frontend/lib/date.ts:50-52 | January 5, 2024 (month 0) prints as `2024-01-05` |
| Date.MonthLength | aremos-frontend/lib/date.ts:29-31 | every month has 28 to 31 days |
| Date.DaysInMonth | aremos-frontend/lib/date.ts:29-31 | 28 exactly for February of a common year, 29 exactly for February of a leap year, 30 exactly for April, June, September and November, 31 exactly for the other seven months. Years 0..99 mean 1900..1999, and months outside 0..11 roll into neighbouring years |
| Date.FirstDayOfMonth | aremos-frontend/lib/date.ts:39-41 | a weekday from 0 (Sunday) to 6 (Saturday) |
| Date.YearOfMonths | aremos-frontend/lib/date.ts:29-31 | the twelve months add up to 366 days in a leap year and 365 otherwise |
| Date.YearLength | aremos-frontend/lib/date.ts:39-41 | the day count of the calendar advances by 366 over a leap year and by 365 over any other |
| Date.NextMonthWeekday | aremos-frontend/lib/date.ts:29-41 | each month starts on the weekday after its predecessor's last day, across year ends too |
| Date.WeekdayAnchor2024 | aremos-frontend/lib/date.ts:39-41 | 1 January 2024 is a Monday |
| Date.WeekdayAnchor1970 | aremos-frontend/lib/date.ts:39-41 | the two-digit year 70 means 1970, whose 1 January is a Thursday |
| Date.CenturyYears | aremos-frontend/lib/date.ts:29-31 | year 0 (1900) and 2100 have a 28-day February, 2000 a 29-day one; month 12 of 2023 is January 2024; month -11 of 2025 is February 2024 |
| DecksPage.GeneratePerformanceGrid | aremos-frontend/app/decks/page.tsx:279-317 | throws exactly when an answer inside the range checks has a round below 1. Otherwise it returns a new 7×15 grid in which each cell shows "done" for rounds after the card's completion round, and the last answer recorded for that round and card otherwise |
| DecksPage.MarkCompleted | aremos-frontend/app/decks/page.tsx:305-314 | the second pass turns a grid holding the last recorded answers into the final grid: 'done' in every round after a card's completion round, everything else untouched |
| DecksPage.CompletedIffTwoRight | aremos-frontend/app/decks/page.tsx:294-301 | a card has a completion round exactly when two of its counted answers were right |
| DecksPage.CompletionRoundStable | aremos-frontend/app/decks/page.tsx:298-300 | once set, a completion round never changes, whatever answers follow |
| DecksPage.CompletionRoundIsSecondRight | aremos-frontend/app/decks/page.tsx:294-301 | the completion round is the round of the answer that brought the card's right answers to two |
| DecksPage.OutOfRangeIgnored | aremos-frontend/app/decks/page.tsx:290 | an answer beyond round 7 or card 15 changes no cell |
| DecksPage.FilterDecks | aremos-frontend/app/decks/page.tsx:558-566 | keeps exactly the decks that match. With a search term, that is the name containing the term case-insensitively; otherwise, under "eigene", the user's own decks; otherwise all decks. It never adds a deck |
| DecksPage.KeepDeck | aremos-frontend/app/decks/page.tsx:558-566 | without a search term a deck is kept unless the filter is "eigene" and the deck is a copy; with one, a kept deck's name is at least as long as the term |
| DecksPage.FilterDistributes | aremos-frontend/app/decks/page.tsx:558-566 | filtering keeps the list's order: it distributes over concatenation |
| DecksPage.NoFilterKeepsAll | aremos-frontend/app/decks/page.tsx:558-566 | with no search term and outside "eigene", the list comes back unchanged |
| DecksPage.SearchIgnoresCase | aremos-frontend/app/decks/page.tsx:560 | a term and its lower-cased form select the same decks |

## Left out

- Databases, HTTP and timers are not modelled: Prisma queries, Fastify routing and reply headers, and the `setInterval` timers. Each sweep is a method the caller runs at a time it chooses.
- bcrypt, licence checks and JWT signing are not modelled. A login enters only as the outcome of its checks (`AuthLockout.Outcome`), and a token only as its id and its `exp`.
- Concurrency is not modelled. The awaits inside `login` and the handlers can interleave in the source; the model runs each handler atomically.
- Aliasing is not modelled. `getSession` returns the stored object itself, which later writers share; the model copies values.
- Floating point and NaN are not modelled. That covers non-integer or non-numeric inputs (`parseInt` of text that is no number, fractional rounds or card positions in the grid, `Math.floor` of a fractional duration) and the `Date` range limits.
- Text handling is reduced:
  - lower-casing covers ASCII only;
  - `JSON.stringify` and `JSON.parse` are modelled at the level of the parsed value, not the text;
  - `serializeSession` is given as its parsed result.
- Interaction card ids stay strings. `finishPractice` converts them with `Number(...)` before counting distinct cards, so ids such as "1" and "01" would count once there; engine ids are always `String` of an integer, so this does not arise.
- Engine.NextRoundLists: requires every queued id to have a state. The source would throw a `TypeError` otherwise; `answerCard`, its only caller, never does that.
- Engine.DeserializeSession: the cast `as SessionState` checks nothing beyond the four-field shape check, so an accepted value need not be a well-typed state; `SerializeRoundTrip` states the typed reading of a serialized state separately.
- Engine.AnswerCard: `session.cardStates` is a plain object in the source, so an id naming an `Object.prototype` member (`constructor`, `toString`, `__proto__`) passes the existence and done checks there and fails with "not available in current round". The model's map has no such entries and answers `UnknownCard` for it. Both reach the client as status 500 through `answerPractice`.
- PracticeController.StartSession: states the first card only by its id when the deck has repeated ids. The card table then holds the last card with that id.
- PracticeController.AnswerPractice: a card table lacking the next id is a 500, as reading its fields would throw. This cannot happen for a session created by `StartSession`.
- SessionStore.Store.CreateSession: a fresh id that collides with a stored one replaces that record, as `Map.set` does. The model does not require the id to be new.
- Date.FormatThenParse: covers only non-negative years, months 0..11 and days 0..99. Other inputs print a minus sign or more digits and do not read back.
- Date.DaysInMonth: follows the `Date` constructor's reading of years 0..99 as 1900..1999, as the code does. Months outside 0..11 roll over as the constructor does.
- AuthLockout.Lockout.Login: models only the lockout table and the status. The token issued on success is not part of this model.
- Termination: a session has no bound on its length. `Engine.WrongAnswerRepeatsLastCard` shows that a learner who keeps answering the last card wrongly never finishes.
