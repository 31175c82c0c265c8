# Achievement evaluator and sign-in error messages, modelled in Dafny

This project models two parts of a personal health-tracking web app.

The first part is the achievement evaluator, `checkAndUnlockAchievements` in `services/dataService.ts`. It is given a user's daily health records in any order. It sorts a copy newest first and tests five fixed badge rules against the newest few records:

- Hydration Hero
- Sleep Master
- Stress Slayer
- Activity Champion
- Consistency King

It skips badges the user already owns, writes each new badge to the user's achievement collection, and returns the new badges. The evaluator reads the owned badges with `getAchievements` and writes each new badge with `unlockAchievement`. These two operations, and the separate `addMetric`, are modelled as methods of a `Store` class whose fields are maps. The Firestore backend is an in-memory map from user id to document id to document. Whether a read or a write reaches the backend is a parameter (`readOk`, `writeOk`, `failedWrites`).

The second part is `parseAuthError` in `context/AuthContext.tsx`. It maps a sign-in error code to the message shown to the user. One message is encoded, `DOMAIN_ERROR: <host>`, and the login page (`pages/Login.tsx`) recognises it and reads the host name back out. `split(": ")` is modelled with its JavaScript meaning, and the encode/decode round trip is proved.

Files and modules:

- `wrappers.dfy` (`Wrappers`): `Option` and `Result`.
- `types.dfy` (`Types`): the `DailyMetric` and `Achievement` records.
- `date_order.dfy` (`DateOrder`): character order on `YYYY-MM-DD` dates, and the newest-first sort as a stable insertion sort.
- `achievement_rules.dfy` (`AchievementRules`): the five rules as functions of the owned ids and the sorted history, and the badges one evaluation yields (`NewBadges`).
- `data_service.dfy` (`DataService`): the store and the imperative evaluator, which is proved to return `NewBadges` and to perform exactly the corresponding writes.
- `auth_errors.dfy` (`Text`, `AuthErrors`): `startsWith`, `indexOf`, `split` and `join`; then `parseAuthError` and the login page's decoding.

Behaviour worth knowing, as the code has it:

- **Activity Champion counts records, not days.** The comment at `services/dataService.ts:189` says "5 days of activity in last 7 days". The test counts active records in `slice(0, 7)`, so a history of only five or six records can unlock the badge (`ActivityChampionFiveRecords`, `ActivityChampionSixRecordsOneMiss`).
- **Consistency King counts records, not consecutive days.** The comment at `services/dataService.ts:207` says "10 consecutive days logged". Only the number of records is checked, and `consecutive` is never used (`ConsistencyKingIff`).
- **A failed read of the owned badges.** `getAchievements` returns `[]` on error (`services/dataService.ts:112-114`). The evaluation then treats nothing as owned. Any badge the user already has whose rule still holds is returned again and, if its write succeeds, overwritten with the new `unlockedAt` (`LoadedIds` is empty when `readOk` is false).
- **A failed badge write.** `unlockAchievement` only logs the error (`services/dataService.ts:122-124`). The badge is still returned, and the remaining rules still run and write.
- **No range checks.** Every record is evaluated as given.

## Model

| member | source | states |
|---|---|---|
| Types.IdsOf | services/dataService.ts:131 | `new Set(existing.map(a => a.id))`: every badge's id is in the set, and every id in the set is the id of some badge |
| DateOrder.LexLeReflexive | services/dataService.ts:133 | the date order (the model of `localeCompare` on dates) puts every date on or before itself |
| DateOrder.LexLeTotal | services/dataService.ts:133 | any two dates are comparable one way or the other |
| DateOrder.LexLeAntisymmetric | services/dataService.ts:133 | two dates each on or before the other are the same date |
| DateOrder.LexLeTransitive | services/dataService.ts:133 | the date order is transitive, so sorting by it is well defined |
| DateOrder.Insert | services/dataService.ts:133 | inserting into a newest-first list gives a newest-first list holding exactly the old records plus the new one |
| DateOrder.SortNewestFirst | services/dataService.ts:133 | the sorted copy is a permutation of the history (same multiset) and is ordered newest date first |
| DateOrder.SortOrderIndependent | services/dataService.ts:133 | for histories with distinct dates, any two orderings of the same records sort to the same list |
| AchievementRules.Filter | services/dataService.ts:140 | `filter` keeps no more records than it is given, each record it keeps is one of them and satisfies the predicate, and every record that satisfies the predicate is kept |
| AchievementRules.FilterMultiplicity | services/dataService.ts:140 | `filter` keeps each record that satisfies the predicate exactly as many times as it occurs in the input, and no other record |
| AchievementRules.Badge | services/dataService.ts:142-149 | the badge of a rule carries one of the five ids, is unlocked, is stamped with the evaluation time, and no other rule has its id |
| AchievementRules.Take | services/dataService.ts:140 | `slice(0, n)` holds the first min(n, length) records, each at its original position |
| AchievementRules.Qualifies | services/dataService.ts:139-215 | each rule's `slice`/`filter` test in plain terms: the 3 newest have waterIntake >= 2000; the 5 newest have sleepHours >= 8; the 4 newest have stressLevel <= 3; at least 5 of the 7 newest have exerciseMinutes > 20 (counted by `CountActive`); at least 10 records |
| AchievementRules.FilterCountsActive | services/dataService.ts:191-193 | filtering the first n records for exerciseMinutes > 20 keeps as many records as the independent count `CountActive` finds |
| AchievementRules.NewBadges | services/dataService.ts:129-230 | the returned list has at most five badges, each one of the five ids, not owned, unlocked and stamped with the evaluation time |
| AchievementRules.WindowAll | services/dataService.ts:140-141 | a window of the first n records has n matches exactly when at least n records exist and each of the first n matches |
| AchievementRules.NewBadgesUnfold | services/dataService.ts:138-227 | the evaluation is the five rule blocks in source order, each contributing its badge or nothing |
| AchievementRules.NewBadgeIff | services/dataService.ts:136-227 | a rule's badge is returned if and only if its id is not owned and its threshold is met |
| AchievementRules.NewBadgesWellFormed | services/dataService.ts:139-227 | every returned badge is one of the five ids, is not owned, is unlocked, is stamped with the evaluation time, and is the fixed template of a rule whose threshold holds |
| AchievementRules.NewBadgesOrdered | services/dataService.ts:130-227 | returned badges appear in rule order (hydration, sleep, stress, activity, consistency) and no id appears twice |
| AchievementRules.NewBadgeIds | services/dataService.ts:131-136 | the returned ids are exactly the ids of qualifying rules minus the owned ids |
| AchievementRules.SecondEvaluationReturnsNothing | services/dataService.ts:129-136 | once the returned badges are owned, evaluating the same history again at any later time returns nothing |
| AchievementRules.HydrationHeroIff | services/dataService.ts:139-141 | hydration_hero is returned if and only if it is not owned, there are at least 3 records, and the 3 newest all have waterIntake >= 2000 |
| AchievementRules.SleepMasterIff | services/dataService.ts:156-158 | sleep_master is returned if and only if it is not owned, there are at least 5 records, and the 5 newest all have sleepHours >= 8 |
| AchievementRules.StressSlayerIff | services/dataService.ts:173-175 | stress_slayer is returned if and only if it is not owned, there are at least 4 records, and the 4 newest all have stressLevel <= 3 |
| AchievementRules.ActivityChampionIff | services/dataService.ts:190-193 | activity_champion is returned if and only if it is not owned and at least 5 of the min(7, n) newest records have exerciseMinutes > 20 |
| AchievementRules.ActivityChampionFiveRecords | services/dataService.ts:190-193 | with exactly five records, activity_champion is returned if and only if it is not owned and all five are active |
| AchievementRules.ActivityChampionSixRecordsOneMiss | services/dataService.ts:190-193 | with exactly six records and any one of them inactive, activity_champion is still returned when not owned |
| AchievementRules.ActivityChampionNeedsFive | services/dataService.ts:190-193 | with fewer than 5 records, activity_champion is never returned |
| AchievementRules.ActivityChampionFiveSuffice | services/dataService.ts:190-193 | if the badge is not owned and the 5 newest records all have exerciseMinutes > 20, it is returned, even with only 5 or 6 records |
| AchievementRules.ActivityChampionToleratesTwo | services/dataService.ts:190-193 | within the 7 newest records, any two may be inactive and the badge still unlocks: it counts records, it does not need a streak |
| AchievementRules.ActivityChampionDeniedByThree | services/dataService.ts:190-193 | three inactive records (exerciseMinutes <= 20, strict threshold) among the 7 newest rule activity_champion out |
| AchievementRules.ConsistencyKingIff | services/dataService.ts:209-215 | consistency_king is returned if and only if it is not owned and there are at least 10 records; dates and gaps play no part |
| AchievementRules.NewBadgesOrderIndependent | services/dataService.ts:133 | for histories with distinct dates, the returned badges do not depend on the order the records were supplied in |
| DataService.Upsert | services/dataService.ts:120-121 | `setDoc` leaves the document holding the new value, adds its key to the user's keys, and changes no other document |
| DataService.WriteAll | services/dataService.ts:150-224 | the chain of `unlockAchievement` writes for the returned badges changes nothing with an empty uid or no badges, and never touches another user's documents |
| DataService.WriteAllEffect | services/dataService.ts:118-125 | a run of badge writes changes only the target user's documents whose ids were written successfully, and adds exactly those ids; an empty uid changes nothing |
| DataService.WriteAllStores | services/dataService.ts:118-125 | with distinct ids, every badge whose write succeeded is stored exactly as written |
| DataService.Store.TargetUid | services/dataService.ts:105-106 | the uid, or else the signed-in user's uid: a non-empty uid is used as given, an empty one yields the signed-in user (or nobody), there is no target exactly when the uid is empty and nobody is signed in, and in a valid store a target is never empty |
| DataService.Store.LoadedIds | services/dataService.ts:105-114 | an id is loaded exactly when the read succeeds, there is a target user, and that user has a badge document under the id |
| DataService.Store.GetAchievements | services/dataService.ts:104-116 | returns every badge the target user owns, each once and as stored; the target is the uid or else the signed-in user; returns none without a user or when the read fails |
| DataService.Store.UnlockAchievement | services/dataService.ts:118-125 | stores the badge under its id when the uid is non-empty and the write succeeds, otherwise leaves the store unchanged; failures are swallowed |
| DataService.Store.AddMetric | services/dataService.ts:67-80 | fails with NotAuthenticated without a signed-in user, fails with InvalidPath for an empty date, fails with WriteFailed when the write fails, and changes nothing on failure; on success it replaces only the record for that date |
| DataService.Store.CheckAndUnlockAchievements | services/dataService.ts:128-230 | returns exactly NewBadges of the ids loaded at the start and the sorted history, whatever the write failures; performs exactly those writes in order; every badge whose write succeeded is stored; other users are untouched |
| DataService.Store.EvaluateRule | services/dataService.ts:138-227 | one rule block appends its badge exactly when the badge is new and the block's slice/filter test passes, and performs the matching write |
| DataService.Store.Award | services/dataService.ts:142-151 | builds the rule's badge, writes it, and appends it to the result whether or not the write succeeded |
| DataService.Store.EvaluateTwice | services/dataService.ts:129-136 | with a reachable store, one evaluation makes the user own the old badges plus the returned ones, and a second evaluation of the same history returns nothing |
| Text.IndexOf | pages/Login.tsx:64 | `indexOf` returns a position where the separator occurs with no earlier occurrence, and returns none exactly when the separator does not occur |
| Text.JoinSplit | pages/Login.tsx:64 | joining the pieces of `split(sep)` with `sep` gives back the original text |
| Text.SplitPiecesFree | pages/Login.tsx:64 | no piece of `split(sep)` contains `sep` |
| Text.Split | pages/Login.tsx:64 | `split(sep)` yields at least one piece, and a second piece (so `[1]` is defined) exactly when the separator occurs |
| Text.StartsWith | pages/Login.tsx:63 | `startsWith(prefix)` holds exactly when the text is at least as long as the prefix and agrees with it position by position |
| AuthErrors.MessageOrDefault | context/AuthContext.tsx:178 | `error.message` if it is present and non-empty, else the default message; never empty |
| AuthErrors.ParseAuthError | context/AuthContext.tsx:166-179 | the result is never empty; the domain code gives `DOMAIN_ERROR: ` + hostname; each of the seven listed codes gives its fixed message (checked against a separate code-to-message table); every other code gives the error's message or the default |
| AuthErrors.IsDomainError | pages/Login.tsx:63 | the page's check holds only for a present error, holds for every text starting with `DOMAIN_ERROR: `, and fails for each fixed message and for the default message |
| AuthErrors.CurrentDomain | pages/Login.tsx:63-64 | a non-domain error reads back as the empty string; a domain error reads back a host exactly when it contains `": "` |
| AuthErrors.FixedMessagesNotDomain | context/AuthContext.tsx:170-178 | neither the seven fixed messages nor the default message starts with `DOMAIN_ERROR` |
| AuthErrors.DomainErrorIff | pages/Login.tsx:63 | the page shows the domain help if and only if the code is the domain code, or the code is unknown and the error's own message starts with `DOMAIN_ERROR` |
| AuthErrors.DomainRoundTrip | pages/Login.tsx:63-64 | for a host name without `": "`, the page reads back exactly the host name that was encoded |
| AuthErrors.DomainRoundTripCutsAtSeparator | pages/Login.tsx:64 | for a host `before: after` with no ':' in `before`, the page reads back only `before` |

## Left out

- Firebase I/O (`getDoc`, `setDoc`, `getDocs`, sign-in and registration) is abstracted. Collections are maps, the signed-in user is an optional uid, and whether the backend accepts a read or write is a parameter.
- Concurrency: the `await`s are treated as sequential steps, and no other client writes between them.
- DataService.Store.CheckAndUnlockAchievements: each badge gets the same `now` parameter. The source calls `Date.now()` once per badge, so badges from one evaluation may carry slightly different timestamps.
- DateOrder.SortNewestFirst: only the ordering and the permutation are stated. The stability of `Array.prototype.sort` for records with equal dates is not stated; the model's insertion sort is stable.
- `localeCompare` is modelled as character-by-character order (`LexLe`). This matches it for dates of the `YYYY-MM-DD` shape, but not for arbitrary strings under arbitrary locales.
- DataService.Store.GetAchievements: the backend lists documents in an order the model does not fix, so the contract states contents and no order.
- `sleepHours` is a `real` and the other numbers are unbounded integers. Floating-point behaviour is not modelled, and the fields are only compared.
- A `/` inside a user id or a date is not modelled as splitting the document path; only the empty id is treated as an invalid path.
- `parseAuthError` called with `null` or `undefined` would throw at `error.message`; the model always has an error record. A non-string `message` is not modelled.
- `window.location.hostname` is the `hostname` parameter.
- The one-second wait in `context/AuthContext.tsx`, which works around a race between profile creation and sign-in, is timing-dependent and is not part of this model.
- `getMetrics`, `getUserProfile`, `updateUserProfile`, `createUserDocument` and `createDefaultUser` in `services/dataService.ts` are not part of this model.
- The Gemini calls (`services/geminiService.ts`), all pages and layout components, the community display score (floating point) and locale date formatting are not part of this model.
