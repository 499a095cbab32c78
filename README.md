# Chat history of the companion app's MemoryManager, in Dafny

This project models the chat-history part of `MemoryManager` in `lib/memory.ts`.
A companion conversation ("thread") is named by a `CompanionKey` of companion
name, model name and user id. Each thread's lines are kept in one Redis sorted
set under the key `companionName-modelName-userId`. The manager can:

- write a chat line, scored by the current time in milliseconds;
- read the latest 30 lines scored in `[0, now]`, oldest first, joined by newlines;
- seed a thread from example dialogue, where piece *i* of the split text gets score *i*;
- hand out one shared instance through `getInstance`.

Modules:

- `CodePointOrder` (`code_point_order.dfy`): the order Redis uses between members
  that have equal scores. Lexicographic order by code point is the same as
  byte-wise comparison of UTF-8.
- `JsArrays`, `JsStrings`: the JavaScript built-ins the code relies on
  (`reverse`, `slice(-30)`, `join`, `split`).
- `SortedSet`: one sorted set. It is kept as the sequence of `(member, score)`
  entries in Redis order. Its abstract view `Scores` maps each member to its
  score. ZADD and ZRANGE ... BYSCORE are specified against that view.
- `Redis`: the database as a class `RedisStore` with a `map` from key to sorted
  set, and the three commands the manager sends (ZADD, ZRANGE BYSCORE, EXISTS).
- `Memory`: `CompanionKey`, the thread key, the class `MemoryManager` with its
  three operations, and `InstanceSlot`, which holds the static `instance` field
  behind `getInstance`.
- `MemoryLaws`: properties of the model and concrete scenarios.

The clock (`Date.now()`) is a parameter `now`. The database that
`Redis.fromEnv()` connects to is passed to the constructor and to
`getInstance`.

Behaviour of the code that a reader might not expect, and that the model keeps:

- An empty `userId` passes the guard of the write and the read; only an
  undefined one is rejected (lib/memory.ts:33, 48). A `null` one passes too,
  and its thread is that of the user named "null"
  (`MemoryLaws.NullUserIdPassesGuard`).
- Thread keys are not injective: two keys collide when a name contains `-`
  (`MemoryLaws.ThreadKeyCollision`).
- Lines with equal scores are ordered by member text, not by write order
  (`MemoryLaws.SameMillisecondOrdersByText`).
- Seeding writes whether or not the thread exists; the EXISTS reply is only
  logged (`Memory.MemoryManager.SeedChatHistory`).
- Seeding does not check `userId`, so an undefined `userId` seeds the thread
  of the user named "undefined" (`MemoryLaws.UndefinedUserIdSharesThread`).

## Model

| member | source | states |
|---|---|---|
| `Memory.MemoryManager.constructor` | lib/memory.ts:14-18 | the manager's history client is the database it was connected to |
| `Memory.InstanceSlot.GetInstance` | lib/memory.ts:20-26 | the first call constructs one manager; every later call returns that same manager and runs no constructor |
| `Memory.GetInstanceTwice` | lib/memory.ts:20-26 | two calls return the same object and exactly one construction has happened |
| `MemoryLaws.ThreadKeyInjectiveWithoutDash` | lib/memory.ts:28-30 | if neither name contains "-", equal thread keys imply equal names and equal printed user ids |
| `MemoryLaws.ThreadKeyCollision` | lib/memory.ts:28-30 | the different triples ("a-b","c","d") and ("a","b-c","d") get the same thread key |
| `MemoryLaws.UndefinedUserIdSharesThread` | lib/memory.ts:28-30 | an undefined `userId` prints as "undefined", so it shares the thread of that user name |
| `MemoryLaws.NullUserIdPassesGuard` | lib/memory.ts:28-33 | a `null` userId passes the guard (its type is "object"), an undefined one does not, and the `null` thread key is that of the user named "null" |
| `Memory.ThreadKey` | lib/memory.ts:28-30 | the key starts with the companion name and a "-", ends with a "-" and the user id as a template literal prints it, and is as long as the three parts plus two separators; its partners are `MemoryLaws.ThreadKeyInjectiveWithoutDash` and `MemoryLaws.ThreadKeyCollision` |
| `Memory.KeySetCorrectly` | lib/memory.ts:33 | holds exactly when a key is given and its `userId` is a string or `null`, that is, not undefined; the write and read contracts return early exactly when it fails |
| `Memory.MemoryManager.WriteToHistory` | lib/memory.ts:32-45 | a missing key or undefined `userId` returns the empty result and leaves the database unchanged; otherwise only the thread's set changes: `text` gets score `now`, other members keep theirs, and the reply is 1 exactly when `text` was new |
| `Redis.RedisStore.ZAdd` | lib/memory.ts:39-42 | ZADD updates only the key's set, keeps every set well formed, and replies with how many members it added (0 or 1), which is also how much the set grew |
| `SortedSet.ZAddScores` | lib/memory.ts:39-42 | after ZADD the member has the new score and every other member keeps its score |
| `SortedSet.ZAddSize` | lib/memory.ts:39-44 | ZADD grows the set by one exactly when the member was not already present |
| `SortedSet.ZAddWellFormed` | lib/memory.ts:39-42 | ZADD keeps members unique and entries in Redis order |
| `SortedSet.ZAdd` | lib/memory.ts:39-42 | the entries after ZADD are the new (member, score) entry and the old entries of the other members, so at most one more than before; `SortedSet.ZAddScores`, `SortedSet.ZAddSize` and `SortedSet.ZAddWellFormed` state the rest |
| `MemoryLaws.RepeatedLineKeepsLatestOnly` | lib/memory.ts:39-42 | writing the same line twice keeps one entry, with the later score, and does not grow the set |
| `Memory.MemoryManager.ReadLatestHistory` | lib/memory.ts:47-61 | a missing key or undefined `userId` gives ""; otherwise the result is the latest window of the thread joined by "\n", which is "" for a thread that does not exist; the database is not changed |
| `Redis.RedisStore.ZRangeByScore` | lib/memory.ts:54-56 | the reply lists exactly the members scored in `[lo, hi]`, each once, ascending by score and then by member |
| `SortedSet.RangeByScoreSpec` | lib/memory.ts:54-56 | the range of a well-formed set has exactly the members scored in `[lo, hi]`, without repeats, in ascending Redis order |
| `SortedSet.SortedByScoreUnique` | lib/memory.ts:54-56 | two ascending listings of the same members are equal, so the range is fixed by the member-to-score map |
| `SortedSet.RangeByScore` | lib/memory.ts:54-56 | ZRANGE BYSCORE lists no more members than the set has entries, each the member of an entry scored in `[lo, hi]`; `SortedSet.RangeByScoreSpec` adds that all such members are listed, once each, in Redis order |
| `MemoryLaws.ReadDependsOnlyOnScores` | lib/memory.ts:54-59 | two sets with the same member-to-score map give the same read |
| `MemoryLaws.LatestWindowSize` | lib/memory.ts:58 | the read keeps the last min(30, n) of the n in-range members, as a suffix of the range |
| `MemoryLaws.LatestWindowSorted` | lib/memory.ts:54-59 | every line read is scored in `[0, now]`, and the lines come ascending by score, without repeats |
| `MemoryLaws.LatestWindowIsNewest` | lib/memory.ts:54-59 | every in-range member left out of the read sorts before every member that is read |
| `Memory.LatestWindow` | lib/memory.ts:54-58 | one read returns at most 30 lines, each from the range over `[0, now]`; `MemoryLaws.LatestWindowSize`, `MemoryLaws.LatestWindowSorted` and `MemoryLaws.LatestWindowIsNewest` state which lines and in what order |
| `MemoryLaws.DoubleReverseIsWindow` | lib/memory.ts:58-59 | `slice(-30).reverse()` followed by `reverse()` equals `slice(-30)` |
| `JsArrays.ReverseInvolutive` | lib/memory.ts:58-59 | reversing an array twice gives back the array |
| `JsArrays.Reverse` | lib/memory.ts:58-59 | `reverse` keeps the length and puts element *n-1-i* at position *i*; its partner `JsArrays.ReverseInvolutive` states that reversing twice is the identity |
| `JsArrays.Join` | lib/memory.ts:59 | `join(sep)` of no elements is "", and of one or more starts with the first element; its partner `JsStrings.JoinSplit` states that it undoes `split` |
| `JsArrays.SliceFrom` | lib/memory.ts:58 | `slice(start)` returns a suffix; with a negative start its length is min(-start, length) |
| `MemoryLaws.SameMillisecondOrdersByText` | lib/memory.ts:39-42 | "b" then "a" written in the same millisecond are read back as "a", "b" |
| `MemoryLaws.HelloWorldScenario` | lib/memory.ts:32-61 | "hello" at t and "world" at t+1 read back at t+1 as "hello\nworld" |
| `MemoryLaws.HelloWorldSession` | lib/memory.ts:32-61 | the same example run through the manager's methods on a new database returns "hello\nworld" |
| `Memory.MemoryManager.SeedChatHistory` | lib/memory.ts:63-81 | with no key, it fails as the source does and changes nothing; otherwise it writes the pieces of `split(delimiter)` to the thread whether or not the thread exists, piece *i* with score *i*, and its counter always equals the number of pieces processed |
| `Redis.RedisStore.Exists` | lib/memory.ts:70 | EXISTS is true exactly when the key holds a non-empty set |
| `JsStrings.Split` | lib/memory.ts:74 | `split` always yields at least one piece |
| `JsStrings.Find` | lib/memory.ts:74 | the search finds the first occurrence of the delimiter at or after a position, or reports that there is none |
| `JsStrings.JoinSplit` | lib/memory.ts:74 | joining the pieces with the delimiter gives back the seed text |
| `JsStrings.SplitPiecesAvoidDelimiter` | lib/memory.ts:74 | no piece contains the delimiter |
| `JsStrings.SplitThreeLines` | lib/memory.ts:74 | "a\nb\nc" split on "\n" gives "a", "b", "c" |
| `MemoryLaws.LastIndex` | lib/memory.ts:77-80 | the score a repeated seed line ends with is the index of its last occurrence |
| `Memory.Seeded` | lib/memory.ts:74-80 | after the seed loop every piece is a member and the set has at most N more entries; `MemoryLaws.SeededScores` states the resulting scores and `Memory.MemoryManager.SeedChatHistory` that the loop computes this set |
| `MemoryLaws.SeededScores` | lib/memory.ts:74-80 | seeding keeps the set well formed, gives each piece the index of its last occurrence, and leaves other members' scores alone |
| `MemoryLaws.SeededScoresBelowCount` | lib/memory.ts:74-80 | on a new thread the seeded members are exactly the pieces, with scores 0 to N-1 |
| `MemoryLaws.SeedThreeLines` | lib/memory.ts:74-80 | seeding "a\nb\nc" gives "a", "b", "c" the scores 0, 1, 2 |
| `MemoryLaws.ReseedingKeepsScores` | lib/memory.ts:68-80 | seeding the same text again leaves every score as it was after the first seeding |
| `MemoryLaws.LiveWriteAfterSeed` | lib/memory.ts:39-42 | after seeding N pieces into any thread, new or already holding lines, and writing a line at time `now` >= N, that line has score `now` and the other seed lines score in [0, `now`) |
| `MemoryLaws.SeededLinesPrecedeLiveWrite` | lib/memory.ts:54-56 | for any thread, new or not: in a later range read, every seed line comes before a line written live at a time of at least N |

## Left out

- The Upstash client, `Redis.fromEnv()`, environment variables and network round trips. The database is an in-memory `RedisStore` object, and its commands never fail.
- `async`/`await`. The model is sequential. `getInstance` has no suspension point between its check and its assignment, so a sequential model of it is faithful.
- `console.log` calls. They are diagnostics with no effect on state.
- `Date.now()`. The time is the parameter `now`, a natural number of milliseconds.
- Redis scores are 64-bit floating-point numbers. The model uses integers, which is exact for millisecond timestamps and for seed counters.
- JavaScript strings are UTF-16 and may hold unpaired surrogates. Dafny characters are Unicode scalar values, so the member order is modelled on code points, which matches Redis's byte order for well-formed text.
- ZADD's `null` reply is not modelled. It only occurs with options the code does not pass.
- An undefined or `null` `companionName` or `modelName` is not modelled. Their type is `string` and the code never checks them; only `userId` is checked.
- `split` with an empty delimiter is not modelled. The seed method requires a non-empty delimiter.
- `Array.prototype.reverse` is modelled on values. It reverses the array in place, but the code reads only the resulting values.
- Vector or semantic search. The source has none.
- `components/navbar.tsx` and the app pages. They are UI code with no state to model.
