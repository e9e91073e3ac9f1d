# FLAMES compatibility — a verified model

FLAMES is a name game. Two names are entered. Whitespace is removed and both names are
lower-cased. Each character of the first name cancels the leftmost unused copy of the same
character in the second name. The number N of characters that survive drives a
counting-out game over the letters F, L, A, M, E, S (Friends, Love, Affection, Marriage,
Crush, Besties): each round moves a cursor by N - 1 with JavaScript's truncating `%` and
splices out the letter there, until one letter is left. Beside the letter the app shows a
"compatibility" percentage, a string hash of the two lower-cased names taken into 50..100.

The server exposes `POST /api/flames`, which validates the names, answers with the letter,
its relationship, its description and the score, and logs the calculation in an in-memory
store. It also exposes `GET /api/flames/recent`, which returns the ten newest log entries.

The project models this core in Dafny:

| file | module | models |
|---|---|---|
| `js.dfy` | `Js` | the JavaScript semantics the code relies on: truncating `%`, ToInt32 and `<<`, `splice`, `indexOf`, `\s`, `toLowerCase` |
| `reducer.dfy` | `Reducer` | `calculateFlames`: the cancellation loop over two arrays, the count, the elimination loop |
| `compatibility.dfy` | `Compatibility` | `calculateCompatibility`: the hash loop and the score |
| `details.dfy` | `Details` | the client's `FLAMES_DETAILS` table |
| `storage.dfy` | `Storage` | `MemStorage`: users, the calculation log and its stable newest-first sort |
| `routes.dfy` | `Routes` | the server's two tables, request validation, response assembly, the two routes |
| `wrappers.dfy` | `Wrappers` | `Option` and `Result` |

Each loop of the source is a Dafny method. Each method's contract either equals a
specification function whose properties are proved as lemmas (`Eliminate`, `CalculateFlames`,
`CalculateCompatibility`) or states the property outright (`RemoveCommon`):

- `RemoveCommon` works on two arrays, as the source does. It is proved to leave, in each
  name, exactly the multiset difference of that name's characters and the other name's
  characters.
- The count of survivors is therefore the size of the symmetric multiset difference. This
  makes the letter independent of the order of the two names, of letter case and of
  whitespace.
- The elimination strikes out exactly five letters, one per round.
- The letter is periodic in N with period 60 for N ≥ 1.
- With N = 0 the cursor goes negative. `splice` then counts from the end of the list, and
  the letter is A. An implementation with a non-negative remainder would give F instead.
- The hash loop computes the base-31 polynomial of the character codes modulo 2^32. Only
  `<<` wraps. The arithmetic stays exactly representable in a double.
- `MemStorage` is a class whose methods update its fields. It keeps an invariant: user keys
  are the ids handed out, and log entry i has id i + 1.
- The recent list is a stable sort of the log, so entries come newest first and ties come
  oldest first. Each entry appears at most once, and no entry left out is newer than one
  returned.
- The POST route answers within the response schema on every valid request. It logs exactly
  one matching record, and leaves the store unchanged on a 400.

The server's copies of `calculateFlames` and `calculateCompatibility`
(`server/routes.ts`, lines 87-137) have the same text as the client's. One model serves both.

## Model

| member | source | states |
|---|---|---|
| Js.Abs | FlamesCompatibility/client/src/lib/flames.ts:51 | `Math.abs` gives x or -x, and never a negative number |
| Js.Rem | FlamesCompatibility/client/src/lib/flames.ts:33 | `%` on a positive divisor: the remainder differs from the dividend by a multiple of the divisor, is smaller than the divisor in magnitude, and has the dividend's sign (truncating division) |
| Js.ToInt32 | FlamesCompatibility/client/src/lib/flames.ts:47 | the 32-bit conversion lands in [-2^31, 2^31), is congruent to its argument modulo 2^32, and keeps values already in range |
| Js.ShiftLeft | FlamesCompatibility/client/src/lib/flames.ts:47 | `x << count` is a signed 32-bit value congruent to x · 2^count modulo 2^32 |
| Js.Splice1 | FlamesCompatibility/client/src/lib/flames.ts:34 | `splice(start, 1)` removes exactly the element at `start`, or the one `-start` from the end when `start` is negative and no further back than the length. A start before that removes the first element, and a start at or past the end removes nothing |
| Js.IndexOf | FlamesCompatibility/client/src/lib/flames.ts:16 | `indexOf` is -1 exactly when the value is absent; otherwise it is a position holding the value with no earlier one |
| Js.LowerChar | FlamesCompatibility/client/src/lib/flames.ts:6-7 | A-Z map to a-z, letter for letter. Every other character, whitespace included, is unchanged, and the result is never an upper-case ASCII letter |
| Js.Lower | FlamesCompatibility/client/src/lib/flames.ts:6-7 | `toLowerCase` keeps the length and lower-cases each character in place |
| Js.StripWhitespace | FlamesCompatibility/client/src/lib/flames.ts:6-7 | `replace(/\s+/g, '')` leaves no whitespace, and changes nothing in a string without whitespace |
| Js.LowerAppend | FlamesCompatibility/client/src/lib/flames.ts:43 | lower-casing distributes over concatenation |
| Js.LowerIgnoresCase | FlamesCompatibility/client/src/lib/flames.ts:6-7 | strings equal up to letter case lower-case to the same string |
| Js.StripAppend | FlamesCompatibility/client/src/lib/flames.ts:6-7 | whitespace removal distributes over concatenation |
| Js.StripDropsWhitespace | FlamesCompatibility/client/src/lib/flames.ts:6 | one whitespace character anywhere in a name disappears |
| Js.StripIgnoresCase | FlamesCompatibility/client/src/lib/flames.ts:6-7 | whitespace removal keeps two strings equal up to case |
| Reducer.Normalize | FlamesCompatibility/client/src/lib/flames.ts:6-7 | a normalised name holds no whitespace and no upper-case letter, and is not longer than the name |
| Reducer.CancelOne | FlamesCompatibility/client/src/lib/flames.ts:15-21 | one pass of the cancellation loop keeps the loop invariant: decided positions keep their verdict, name2's blanks are leftmost, and the live characters are the two multiset differences so far |
| Reducer.RemoveCommon | FlamesCompatibility/client/src/lib/flames.ts:10-22 | after the loop each cell is blank or holds its own character, and position i of name1 is blanked exactly when name2 has more copies of that character than name1 has before i. In name2 the blanks of each character are its leftmost copies. Each name's live characters are its multiset difference with the other name |
| Reducer.CancelDone | FlamesCompatibility/client/src/lib/flames.ts:22 | the loop invariant at the end of name1 gives the final state `RemoveCommon` promises |
| Reducer.NonBlank | FlamesCompatibility/client/src/lib/flames.ts:25-26 | the filter keeps exactly the non-empty cells, and their number is the number of live characters |
| Reducer.RemainingCountsMatches | FlamesCompatibility/client/src/lib/flames.ts:14-26 | the survivors number the two lengths added, minus twice the number of matched pairs |
| Reducer.RemainingZeroIffAnagrams | FlamesCompatibility/client/src/lib/flames.ts:14-26 | nothing survives exactly when the two names are anagrams |
| Reducer.EliminateFrom | FlamesCompatibility/client/src/lib/flames.ts:32-35 | the rounds end with exactly one letter, taken from the list |
| Reducer.EliminationPartitions | FlamesCompatibility/client/src/lib/flames.ts:32-35 | every round strikes out exactly one letter: the struck letters and the survivor together are the original list |
| Reducer.Eliminate | FlamesCompatibility/client/src/lib/flames.ts:29-37 | the loop returns the letter `FlamesLetter` gives for the count |
| Reducer.FlamesLetter | FlamesCompatibility/client/src/lib/flames.ts:29-37 | the letter is one of F, L, A, M, E, S |
| Reducer.FlamesResult | FlamesCompatibility/client/src/lib/flames.ts:4-38 | the result for any two names is one of the six letters |
| Reducer.CalculateFlames | FlamesCompatibility/client/src/lib/flames.ts:4-38 | the client's reducer returns `FlamesResult`, the letter for the size of the symmetric multiset difference of the normalised names (the server's copy, server/routes.ts lines 87-121, has the same text) |
| Reducer.Replay | FlamesCompatibility/client/src/lib/flames.ts:32-35 | a recorded sequence of rounds that follows the loop ends on the letter the elimination leaves |
| Reducer.AnagramsGiveAffection | FlamesCompatibility/client/src/lib/flames.ts:29-37 | with nothing left (N = 0) the cursor wraps to the end each round and the letter is A |
| Reducer.OneLeftGivesBesties | FlamesCompatibility/client/src/lib/flames.ts:29-37 | with N = 1 the letter is S |
| Reducer.TwoLeftGivesCrush | FlamesCompatibility/client/src/lib/flames.ts:29-37 | with N = 2 the letter is E |
| Reducer.NormalizeLetters | FlamesCompatibility/client/src/lib/flames.ts:6-7 | a name without whitespace is only lower-cased |
| Reducer.SteveAndEveNormalised | FlamesCompatibility/client/src/lib/flames.ts:6-7 | "Steve" and "Eve" normalise to "steve" and "eve" |
| Reducer.SteveAndEveLeaveTwo | FlamesCompatibility/client/src/lib/flames.ts:14-26 | "steve" against "eve" leaves two characters |
| Reducer.SteveAndEveGiveCrush | FlamesCompatibility/client/src/lib/flames.ts:4-38 | "Steve" and "Eve" give E |
| Reducer.FlamesSymmetric | FlamesCompatibility/client/src/lib/flames.ts:4-38 | swapping the two names does not change the letter, although the loop treats them differently |
| Reducer.NormalizeIgnoresCase | FlamesCompatibility/client/src/lib/flames.ts:6-7 | names equal up to case normalise alike |
| Reducer.FlamesIgnoresCase | FlamesCompatibility/client/src/lib/flames.ts:6-7 | names equal up to case give the same letter |
| Reducer.FlamesIgnoresWhitespace | FlamesCompatibility/client/src/lib/flames.ts:6-7 | a whitespace character added anywhere in either name does not change the letter |
| Reducer.EliminationPeriodic | FlamesCompatibility/client/src/lib/flames.ts:32-35 | for N ≥ 1 and a list of at most six letters, N and N + 60 leave the same letter |
| Reducer.PeriodicCursor | FlamesCompatibility/client/src/lib/flames.ts:33 | for N ≥ 1 the cursor stays non-negative, and adding 60 to N moves it to the same place |
| Reducer.SixtyIsAPeriod | FlamesCompatibility/client/src/lib/flames.ts:33 | 60 is a multiple of every list length from 1 to 6 |
| Reducer.FlamesLetterPeriodic | FlamesCompatibility/client/src/lib/flames.ts:29-37 | for N ≥ 1 the letter repeats with period 60 |
| Reducer.EliminateEuclidean | FlamesCompatibility/client/src/lib/flames.ts:32-35 | a reference elimination with a non-negative remainder leaves one letter |
| Reducer.EuclideanAgreesFromOne | FlamesCompatibility/client/src/lib/flames.ts:33 | for N ≥ 1 the truncating and the non-negative remainder give the same elimination |
| Reducer.EuclideanRoundsAtZero | FlamesCompatibility/client/src/lib/flames.ts:33-34 | the non-negative remainder at N = 0 strikes S, E, M, A and L and leaves F |
| Reducer.EuclideanDiffersAtZero | FlamesCompatibility/client/src/lib/flames.ts:33-34 | at N = 0 the truncating remainder matters: the non-negative one would leave F where the source leaves A |
| Compatibility.CharCode | FlamesCompatibility/client/src/lib/flames.ts:47 | `charCodeAt` gives a code below 0x110000 |
| Compatibility.Score | FlamesCompatibility/client/src/lib/flames.ts:51 | `50 + Math.abs(hash % 51)` lies between 50 and 100 |
| Compatibility.CompatibilityScore | FlamesCompatibility/client/src/lib/flames.ts:41-54 | the percentage for any two names lies between 50 and 100 |
| Compatibility.CalculateCompatibility | FlamesCompatibility/client/src/lib/flames.ts:41-54 | the hash loop returns the hash of the lower-cased joined names, mapped to 50..100 (the server's copy, server/routes.ts lines 124-137, has the same text) |
| Compatibility.StepCongruent | FlamesCompatibility/client/src/lib/flames.ts:47 | one round agrees with `31 * hash + code` modulo 2^32, whatever the shift wraps |
| Compatibility.HashIsPolynomial | FlamesCompatibility/client/src/lib/flames.ts:46-48 | the hash is the base-31 polynomial of the character codes modulo 2^32 |
| Compatibility.HashBound | FlamesCompatibility/client/src/lib/flames.ts:46-48 | each character moves the hash by at most 2^31 + 2^21 |
| Compatibility.HashExactForShortNames | FlamesCompatibility/shared/schema.ts:41-42 | for two names of at most 30 characters the hash stays below 2^53, so a double holds every value exactly |
| Compatibility.ScoreOfJoinedNames | FlamesCompatibility/client/src/lib/flames.ts:43 | the score depends only on the lower-cased concatenation of the names |
| Compatibility.ShiftingCharactersKeepsScore | FlamesCompatibility/client/src/lib/flames.ts:43 | pairs of names that join to the same string score the same |
| Compatibility.CompatibilityIgnoresCase | FlamesCompatibility/client/src/lib/flames.ts:43 | names equal up to case score the same |
| Compatibility.StepWithoutWrap | FlamesCompatibility/client/src/lib/flames.ts:47 | while `32 * hash` fits in 32 bits a round is exactly `31 * hash + code` |
| Compatibility.HashesOfExample | FlamesCompatibility/client/src/lib/flames.ts:46-48 | "abc" hashes to 96354 and "a bc" to 2923616 |
| Compatibility.ScoreSeesWhitespace | FlamesCompatibility/client/src/lib/flames.ts:41-54 | unlike the letter, the score sees whitespace: ("a b", "c") scores 91 and ("ab", "c") scores 65 |
| Details.DetailFor | FlamesCompatibility/client/src/lib/flames.ts:57-106 | the table has an entry exactly for the six FLAMES letters, each with a relationship and a description |
| Details.RelationshipsDistinct | FlamesCompatibility/client/src/lib/flames.ts:57-106 | different letters name different relationships |
| Details.ResultHasDetails | FlamesCompatibility/client/src/lib/flames.ts:57-106 | the letter for any two names has an entry in the table |
| Storage.WithId | FlamesCompatibility/server/storage.ts:56 | the stored record is the calculation with the id added |
| Storage.Insert | FlamesCompatibility/server/storage.ts:63-64 | inserting adds exactly one entry |
| Storage.SortByTimeDesc | FlamesCompatibility/server/storage.ts:63-64 | the sort is a permutation of the log |
| Storage.ConsInOrder | FlamesCompatibility/server/storage.ts:64 | an entry that precedes every entry of an ordered list can be put in front of it |
| Storage.InsertInOrder | FlamesCompatibility/server/storage.ts:64 | inserting an entry logged before all the others (a smaller id) keeps recency order |
| Storage.SortInRecencyOrder | FlamesCompatibility/server/storage.ts:63-64 | the sort puts newer timestamps first and keeps ties in log order |
| Storage.RecencyIsNewestFirst | FlamesCompatibility/server/storage.ts:64 | recency order never has a timestamp increase, as the comparator asks |
| Storage.StrictlyNewerGivesReversedLog | FlamesCompatibility/server/storage.ts:63-64 | when each save has a later timestamp than the one before, the sorted log is the log reversed |
| Storage.InsertOldest | FlamesCompatibility/server/storage.ts:64 | an entry older than all others goes last |
| Storage.NewestSaveComesFirst | FlamesCompatibility/server/storage.ts:57-64 | an entry pushed with a timestamp later than all others heads the sorted log |
| Storage.PrefixOfSorted | FlamesCompatibility/server/storage.ts:65 | `slice(0, limit)` of an ordered list keeps order, and every kept entry precedes every dropped one |
| Storage.TiesComeOldestFirst | FlamesCompatibility/server/storage.ts:64 | two entries with the same timestamp keep their log order |
| Storage.MemStorage.constructor | FlamesCompatibility/server/storage.ts:24-29 | the store starts with no users, an empty log and both counters at 1 |
| Storage.MemStorage.GetUser | FlamesCompatibility/server/storage.ts:31-33 | a user is found exactly for the ids handed out so far, and it carries the id asked for |
| Storage.MemStorage.GetUserByUsername | FlamesCompatibility/server/storage.ts:35-39 | the earliest-created user with the name is found, or none when no user has it |
| Storage.MemStorage.CreateUser | FlamesCompatibility/server/storage.ts:41-46 | the new user gets the next id and can then be fetched by it; the counter moves on and nothing else changes |
| Storage.MemStorage.SaveFlamesCalculation | FlamesCompatibility/server/storage.ts:48-59 | the calculation gets the next id and is appended to the log; earlier entries and the users stay as they were |
| Storage.MemStorage.GetRecentCalculations | FlamesCompatibility/server/storage.ts:61-66 | the store is not changed. At most `limit` entries come back, newest first and ties oldest first, each from the log and none twice, and no dropped entry is newer than a returned one |
| Routes.Lookup | FlamesCompatibility/server/routes.ts:45 | a table read is defined exactly for the table's keys |
| Routes.TablesAgree | FlamesCompatibility/server/routes.ts:9-25 | the server's relationship and description tables give, for every letter, what the client's `FLAMES_DETAILS` gives |
| Routes.FieldIssues | FlamesCompatibility/shared/schema.ts:41-42 | a field has no issue exactly when it is a string of 1 to 30 characters, and it has at most one issue |
| Routes.ParseRequest | FlamesCompatibility/server/routes.ts:32 | parsing succeeds exactly when both names are valid. Otherwise one issue is reported per invalid name, each naming its field |
| Routes.AssembleResponse | FlamesCompatibility/server/routes.ts:41-48 | the response echoes the names as received, with the letter and score; both table reads succeed for a FLAMES letter |
| Routes.HistoryEntry | FlamesCompatibility/server/routes.ts:51-57 | the logged calculation carries the names, letter and score of the response, stamped with the clock |
| Routes.ResponseConforms | FlamesCompatibility/shared/schema.ts:48-55 | every response to a valid request satisfies the response schema, and its score is at least 50 |
| Routes.ResultIgnoresOrder | FlamesCompatibility/server/routes.ts:35 | the route's letter does not depend on the order of the names |
| Routes.PostFlames | FlamesCompatibility/server/routes.ts:29-69 | an invalid body gets a 400 and leaves the store alone. A valid one gets the conforming response and appends exactly one matching record. With a clock later than all earlier entries, that record heads the recent list |
| Routes.GetRecent | FlamesCompatibility/server/routes.ts:72-79 | the route returns at most ten entries, the ten newest or the whole sorted log |

## Left out

- Unicode beyond ASCII: `LowerChar` maps only A-Z. `toLowerCase` also lower-cases other scripts, so names with non-ASCII capitals are outside the model.
- Characters outside the Basic Multilingual Plane are left out. JavaScript splits them into two UTF-16 code units, which affects `split('')`, `length` and `charCodeAt`; the model treats each character as one code unit.
- Compatibility.CalculateCompatibility: the model computes with unbounded integers. `HashBound` shows that a double holds the hash exactly for inputs of up to about four million characters. Rounding beyond that is not modelled.
- Timestamps: the ISO string written by `new Date().toISOString()` and read back with `new Date(...).getTime()` is modelled as its millisecond count.
- The clock is a parameter of `Routes.PostFlames`.
- Storage.MemStorage.GetRecentCalculations: `limit` is a natural number. `slice` with a negative or fractional limit is not modelled; the only caller passes 10.
- Storage.MemStorage.GetUserByUsername: the loop runs over ids in increasing order. This stands in for the insertion order of the `Map`, which is the same thing because ids are fresh and increasing.
- The `IStorage` interface, `async`/`Promise` wrapping, the shared `storage` instance, Express and the HTTP server are plumbing. They are not modelled.
- Routes.PostFlames: the 400 reply carries the list of schema issues. The message text that `fromZodError` formats from them is not modelled.
- Routes.PostFlames: the 500 branches of both routes are not modelled. No step of the model can fail, so they are unreachable here.
- Routes.ParseRequest: only a body that is a JSON object is modelled. A field that is missing or not a string gives an invalid-type issue. Unknown keys are dropped, as the schema does.
- The presentation fields of `FLAMES_DETAILS` (icon, colour, animation, 3D object) are kept as data. The UI that uses them is not part of this model.
- Users are stored but no route reads or writes them. Passwords are kept as given.
