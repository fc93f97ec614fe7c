# find-a-word: a Dafny model of the game logic

The app is a fill-in-the-blank vocabulary trainer. A stored text is split
into tokens. Each round hides some of its words, and the learner types them
back. Words answered correctly, or revealed with a hint, are remembered per
text, so later rounds favour words not yet known.

This project models the three pieces of logic behind that, as immutable
datatypes and pure functions, and proves their properties:

- **Tokenizer** (`tokenizer.dfy`, `chars.dfy`). `tokenizeText` splits a text
  into maximal runs of three character classes: word characters, "other"
  characters and whitespace. Each run gets the id `tok-<i>` and its position
  `i`.
- **Blank selector** (`blank_selection.dfy`). `selectBlankIndices`:
  - keeps the word positions at least `minWordLen` long;
  - splits them into unknown and known pools;
  - computes the new and review quotas;
  - walks both shuffled pools greedily, taking a position only when neither
    neighbour in the sequence of *all* words is already taken;
  - sorts the result.

  The shuffles are parameters: any permutation of each pool (a multiset
  equality). Every property holds for every permutation.
- **Round** (`playarea.dfy`). `startNewRound`, the `handleInputChange`
  updater, the `checkAnswer` updater (correct, error, hint) and `checkAll`.
  A page model lets only enabled inputs receive events. The round invariant
  says each of the round's blanks is solved, hinted or still hidden, exactly
  once. It is proved for every sequence of events. Over any such sequence
  in a new round, the positions reported as known are distinct and were
  all chosen by the selector.
- **App shell** (`app.dfy`).
  - `handleUpdateProgress`: idempotent append to the progress map.
  - `handleAddText`: prepend.
  - `handleDeleteText`: cascade delete.
  - The load-time check that resets progress saved in the old word-list
    format.

Other files:

- `types.dfy` mirrors `types.ts`.
- `collections.dfy` holds the generic sequence facts: filter, count,
  ascending sort, distinctness.
- `wrappers.dfy` holds `Option`.

Three behaviours of `selectBlankIndices` shape what the model proves:

- Adjacency runs over all word tokens, short ones included. A short word
  between two candidates therefore separates them.
- The review quota starts as the rounded-up fifth of the round, the share
  the `// 20% review` comment at lib/gameLogic.ts:75 names. Line 81 then
  raises it to fill whatever the unknown words cannot. So review words take
  more than a fifth of the round whenever too few unknown words remain.
  `BlankSelection.Quotas` and `BlankSelection.QuotasUnique` pin both quotas
  down exactly.
- The review walk fills up to `nNew + nOld`, so review words make up for
  new words the first walk could not place. It never returns to the new
  pool, though. A round can therefore end short while an unknown word is
  still free: `BlankSelection.ReviewWalkLeavesFreeNewWord` gives an
  instance. `BlankSelection.ShortSelectionIsBlocked` states what a short
  round does guarantee.

## Model

| member | source | states |
|---|---|---|
| Chars.ClassOf | lib/gameLogic.ts:12 | each character is in exactly one of the three alternatives of the token regex; it is a word character exactly when it is a letter, digit or `_`, and whitespace only when it is not word-forming |
| Chars.WordAndSpaceDisjoint | lib/gameLogic.ts:12 | no character is both word-forming and whitespace, so the order of the regex alternatives never matters |
| Chars.NatToString | lib/gameLogic.ts:24 | the decimal rendering of an index is non-empty, all digits, with no leading zero |
| Chars.DecimalRoundTrip | lib/gameLogic.ts:24 | reading back the decimal rendering of an index gives the index |
| Chars.NatToStringInjective | lib/gameLogic.ts:24 | different indices render to different strings |
| Chars.Trim | components/PlayArea.tsx:65 | `trim` never lengthens its input and leaves no whitespace at either end; `Chars.TrimPadded` and `Chars.TrimIdempotent` pin down what it removes |
| Chars.TrimPadded | components/PlayArea.tsx:65 | `trim` of a string padded with whitespace gives back the string, when it neither starts nor ends with whitespace |
| Chars.Lower | components/PlayArea.tsx:64-65 | `toLowerCase` keeps the length and lowers each character on its own |
| Chars.LowerCharChanges | components/PlayArea.tsx:64-65 | lower-casing changes a character exactly when it is an ASCII or Latin-1 capital (not U+00D7), and never yields a capital |
| Chars.LowerKeepsSpace | components/PlayArea.tsx:64-65 | lower-casing neither makes nor removes whitespace |
| Chars.LowerIdempotent | components/PlayArea.tsx:64-65 | lower-casing a lower-cased string changes nothing |
| Chars.TrimStartLower | components/PlayArea.tsx:65 | stripping leading whitespace commutes with lower-casing |
| Chars.TrimEndLower | components/PlayArea.tsx:65 | stripping trailing whitespace commutes with lower-casing |
| Chars.TrimLower | components/PlayArea.tsx:65 | `trim` and `toLowerCase` may be applied in either order |
| Chars.TrimIdempotent | components/PlayArea.tsx:65 | trimming a trimmed string changes nothing |
| Tokenizer.RunEnd | lib/gameLogic.ts:12 | the scan of one run stops at the first character of another class, or at the end |
| Tokenizer.Runs | lib/gameLogic.ts:12-19 | the successive regex matches join back to the input exactly; there are none exactly when the input is empty; the first one starts with the input's first character |
| Tokenizer.RunsMaximal | lib/gameLogic.ts:12 | every match is a non-empty run of one class, and neighbouring matches differ in class, so runs are maximal |
| Tokenizer.RunsUnique | lib/gameLogic.ts:12-30 | any split of the text into single-class runs with no two same-class runs side by side is the one the regex produces |
| Tokenizer.Tokenize | lib/gameLogic.ts:7-31 | the token texts join back to the input; empty input gives no tokens; each token is a single-class run, a word exactly when its class is the word class, at position `i` with id `tok-i` |
| Tokenizer.TokenIdInjective | lib/gameLogic.ts:24 | two positions with the same id are the same position |
| Tokenizer.TokenIdsDistinct | lib/gameLogic.ts:23-29 | no two tokens of a text share an id |
| BlankSelection.PositionsWhere | lib/gameLogic.ts:48-50 | the filtered positions are exactly those of tokens passing the filter |
| BlankSelection.PositionsOfIndexed | lib/gameLogic.ts:62-64 | on numbered tokens a position is chosen exactly when it is in range and its token passes the filter |
| BlankSelection.PositionsAscending | lib/gameLogic.ts:48-50 | on numbered tokens the filtered positions are strictly ascending |
| BlankSelection.CandidatesAreWords | lib/gameLogic.ts:48-64 | every candidate is a word position |
| BlankSelection.PoolsPartitionCandidates | lib/gameLogic.ts:66-72 | the unknown and known pools together hold each candidate exactly once |
| BlankSelection.CeilFifth | lib/gameLogic.ts:75 | `ceil(0.2 * k)`: the least `c` with `k <= 5c` |
| BlankSelection.Quotas | lib/gameLogic.ts:73-81 | the quotas add up to `min(n, candidates)` and fit their pools; for non-negative `n` they are non-negative; the review quota is at least the rounded fifth (or all known words, if fewer), and exactly that whenever unknown words are not exhausted |
| BlankSelection.QuotasUnique | lib/gameLogic.ts:73-81 | for non-negative `n` those facts determine the quotas: any pair meeting them is the computed one |
| BlankSelection.NeighboursAt | lib/gameLogic.ts:54-57 | the neighbours of a word are exactly the previous and the next word, where they exist |
| BlankSelection.AdjacencyUpTo | lib/gameLogic.ts:52-59 | the map built so far has exactly the word positions set so far as keys |
| BlankSelection.AdjacencyLookup | lib/gameLogic.ts:52-59 | with no repeated positions, the map gives every word exactly its own neighbours |
| BlankSelection.IsSafe | lib/gameLogic.ts:94-99 | a position without neighbours, or one tested against an empty selection, is always safe; an unsafe position has a neighbour already selected, and a safe one has none |
| BlankSelection.IsSafeAt | lib/gameLogic.ts:94-99 | on word positions without repeats, a word may be taken exactly when neither the word before it nor the word after it is taken |
| BlankSelection.IsSafeOffWords | lib/gameLogic.ts:95-96 | a position with no entry in the map may always be taken |
| BlankSelection.UnsafeStaysUnsafe | lib/gameLogic.ts:94-99 | a position refused against some taken positions stays refused once more are taken |
| BlankSelection.Fill | lib/gameLogic.ts:102-115 | one greedy walk only appends to what was taken, stops at the target, and takes at most one element per popped pool element |
| BlankSelection.FillMaximal | lib/gameLogic.ts:102-115 | a walk that stops short of its target has taken every pool element that has no taken neighbour |
| BlankSelection.FillTakesFromPool | lib/gameLogic.ts:102-115 | a walk adds only pool elements, each at most as often as the pool holds it |
| BlankSelection.AddSafeKeepsApart | lib/gameLogic.ts:94-99 | taking a position `isSafe` allows never puts two word neighbours among the taken ones |
| BlankSelection.FillKeepsApart | lib/gameLogic.ts:102-115 | a walk never takes two word neighbours |
| BlankSelection.FillTakesAll | lib/gameLogic.ts:102-115 | when no pool element has a neighbour in the pool or among the taken ones, the walk stops only at the target or when the pool is empty |
| BlankSelection.Walk | lib/gameLogic.ts:101-115 | the two walks take at most `nNew + nOld` positions when both quotas are non-negative, and never more than both pools hold |
| BlankSelection.WalkMaximal | lib/gameLogic.ts:101-115 | a review walk that stops short of `nNew + nOld` has taken every review-pool element with no taken neighbour; a new walk that stops short of `nNew` leaves the same true of the new pool at the end of both walks |
| BlankSelection.WalkFromPools | lib/gameLogic.ts:101-115 | the first walk's picks come from the new pool and fit the new quota; the rest come from the review pool; the total fits `nNew + nOld` |
| BlankSelection.WalkWithinCandidates | lib/gameLogic.ts:62-115 | everything taken is a candidate, at most once per occurrence, and no more than `min(n, candidates)` in all |
| BlankSelection.SelectBlankIndices | lib/gameLogic.ts:38-118 | the result is ascending, a sub-multiset of the candidates, each position a word of at least `minWordLen` characters, and at most `min(n, candidates)` long |
| BlankSelection.SelectionIsSortedWalk | lib/gameLogic.ts:117 | the result holds exactly what the two walks took |
| BlankSelection.IndexedPositionsDistinct | lib/gameLogic.ts:48-64 | on tokenizer output the word positions and the candidates are strictly ascending |
| BlankSelection.SelectionStrictlyAscending | lib/gameLogic.ts:102-117 | on tokenizer output the result is strictly ascending, so no position is chosen twice |
| BlankSelection.NoTwoAdjacentRearranged | lib/gameLogic.ts:117 | sorting does not affect whether two neighbours are both chosen |
| BlankSelection.WalkKeepsApart | lib/gameLogic.ts:101-115 | the two walks in turn never take two word neighbours |
| BlankSelection.SelectionNeverAdjacent | lib/gameLogic.ts:48-59 | no two chosen positions are neighbours in the sequence of all word tokens |
| BlankSelection.CandidatesIsolated | lib/gameLogic.ts:94-99 | when no two candidates are word neighbours, no pool element has a neighbour in a pool or among the taken ones |
| BlankSelection.NeighbourNotCandidate | lib/gameLogic.ts:52-59 | in such a text the map's neighbour of a candidate is never a candidate |
| BlankSelection.WalkTakesQuota | lib/gameLogic.ts:102-115 | with isolated pools and quotas that fit them, the walks take exactly `nNew + nOld` |
| BlankSelection.SelectionFillsQuota | lib/gameLogic.ts:74-117 | when no two candidates are word neighbours the result has exactly `min(n, candidates)` positions |
| BlankSelection.IsSafeRearranged | lib/gameLogic.ts:117 | whether a position may be taken depends only on which positions are taken, not on their order |
| BlankSelection.MaximalRearranged | lib/gameLogic.ts:117 | a walk's greedy stop survives sorting its picks |
| BlankSelection.NewWordsAreFirstWalk | lib/gameLogic.ts:101-117 | the unknown words in the result are exactly the first walk's picks |
| BlankSelection.ShortSelectionIsBlocked | lib/gameLogic.ts:73-117 | a result shorter than `nNew + nOld` leaves no known candidate both unchosen and free of chosen neighbours; one with fewer than `nNew` unknown words does the same for unknown candidates |
| BlankSelection.FiveWordNeighbours | lib/gameLogic.ts:52-59 | helper of `BlankSelection.ReviewWalkLeavesFreeNewWord`: the neighbour map that example needs, for words at 0, 2, 4, 6, 8 |
| BlankSelection.ReviewWalkLeavesFreeNewWord | lib/gameLogic.ts:101-115 | with words at 0, 2, 4, 6, 8, position 2 known and two blanks asked for, the new pool `[8, 6, 4, 0]` and the review pool `[2]` give only `[0]`, although 8 is unknown, unchosen and has no chosen neighbour |
| BlankSelection.NewWordsWithinQuota | lib/gameLogic.ts:101-115 | at most `nNew` chosen positions are unknown words: the review walk only adds known ones |
| Collections.SortAscending | lib/gameLogic.ts:117 | the numeric sort is an ascending permutation of its input |
| PlayArea.NumBlanks | components/PlayArea.tsx:31 | the blank count is the rounded-up fifth of the word count, capped at 30 |
| PlayArea.NewRound | components/PlayArea.tsx:35-44 | each token keeps its text, id and position with an empty input; a token is hidden exactly when its position is selected; hidden tokens start `empty` and the others `correct`; only long words are hidden; the total is the number of hidden tokens; the round invariant holds |
| PlayArea.NewRoundStartsFresh | components/PlayArea.tsx:35-44 | a round hiding at most `NumBlanks(words)` long words starts fresh: empty inputs, hidden tokens `empty` and shown ones `correct`, nothing solved, the invariant in force |
| PlayArea.FreshHidesLongWords | components/PlayArea.tsx:35-40 | a round hides only words of at least `MinWordLen` characters |
| PlayArea.FreshBlankCount | components/PlayArea.tsx:37-43 | `totalBlanks`, the selection's length, equals the number of hidden tokens |
| PlayArea.FreshInvariant | components/PlayArea.tsx:35-44 | a fresh round satisfies the round invariant |
| PlayArea.SelectedAreLongWords | lib/gameLogic.ts:62-64 | on tokenizer output a selected position indexes a long word |
| PlayArea.RoundOver | components/PlayArea.tsx:31-44 | the round over tokenized text hides exactly the selector's positions, at most `NumBlanks(words)` of them, and starts fresh, hidden tokens `empty` and shown ones `correct` |
| PlayArea.StartNewRound | components/PlayArea.tsx:28-46 | a new round over a text hides exactly the positions the selector returns for `NumBlanks(words)` blanks, and is fresh: the text's tokens in order with empty inputs, hidden tokens `empty` and shown ones `correct`, only long words hidden, at most `NumBlanks(words)` blanks, nothing solved, the round invariant in force |
| PlayArea.FindIndex | components/PlayArea.tsx:60-61 | `findIndex` finds nothing exactly when no token carries the id, and otherwise the first token that does |
| PlayArea.ChangeInput | components/PlayArea.tsx:48-55 | only tokens with the id change; they take the typed value; their state changes only from `error` to `empty`, exactly when the value is empty |
| PlayArea.ChangeInputIdempotent | components/PlayArea.tsx:48-55 | typing the same value twice is typing it once |
| PlayArea.CheckAt | components/PlayArea.tsx:63-86 | only the found token changes. Hint: text filled in, `hint`, unhidden, position reported, solved count kept. Match: `correct`, unhidden, reported, solved count up by one. Mismatch: `error` only, nothing reported |
| PlayArea.CheckAnswer | components/PlayArea.tsx:57-88 | an id no token carries changes nothing; otherwise the first token carrying it is checked |
| PlayArea.CheckFindsFirst | components/PlayArea.tsx:60-63 | the id of a token no earlier token carries selects that token |
| PlayArea.CheckPending | components/PlayArea.tsx:90-96 | checking the next open blank, with earlier ones settled, settles it and reports it exactly when its input matches |
| PlayArea.CheckIdsSettles | components/PlayArea.tsx:90-96 | the chain of updaters over the pending ids settles every remaining open blank, counting and reporting the matching ones in page order |
| PlayArea.CheckAll | components/PlayArea.tsx:90-96 | checking all keeps the token count and the blank total and reports at most one position per token |
| PlayArea.CheckAllSettles | components/PlayArea.tsx:90-96 | `checkAll` marks matching open blanks `correct` and unhides them, marks other open blanks `error`, leaves every other token alone, and reports exactly the matching ones |
| PlayArea.SolvedPositionsCount | components/PlayArea.tsx:80-81 | the solved count rises by the number of open blanks whose input matches |
| PlayArea.SettleKeepsConsistent | components/PlayArea.tsx:78-85 | checking a consistent token keeps it consistent and unhides it exactly when it matches |
| PlayArea.CheckOneKeepsInvariant | components/PlayArea.tsx:57-88 | checking or hinting an enabled input keeps every blank accounted for once |
| PlayArea.CheckAllKeepsInvariant | components/PlayArea.tsx:90-96 | `checkAll` keeps every blank accounted for once |
| PlayArea.EditKeepsInvariant | components/PlayArea.tsx:48-55 | typing keeps the invariant |
| PlayArea.StepKeepsInvariant | components/PlayArea.tsx:136-161 | any event the page lets through keeps the invariant |
| PlayArea.RunKeepsInvariant | components/PlayArea.tsx:19-20 | over any sequence of events the invariant holds, and the solved count stays between 0 and the round's blank total |
| PlayArea.StepKeepsClosed | components/PlayArea.tsx:136 | a correct, hinted or never-hidden token is never changed again |
| PlayArea.MatchesPointwise | components/PlayArea.tsx:64-65 | the answer test holds exactly when the trimmed input is as long as the word and agrees with it at every position up to letter case |
| PlayArea.AcceptsOpen | components/PlayArea.tsx:136-166 | an event is let through only to a token with the id that is still open (hidden and neither `correct` nor `hint`); with distinct ids every such token lets it through |
| PlayArea.Step | components/PlayArea.tsx:136-166 | an event never changes the number of tokens or the round's blank total |
| PlayArea.KeptPositionsFrom | components/PlayArea.tsx:90-96 | on tokens numbered consecutively, the positions of the tokens a test keeps rise strictly, stay within the numbering, and each names a kept token |
| PlayArea.SolvedPositionsFrom | components/PlayArea.tsx:90-96 | the positions `checkAll` reports rise strictly, stay within the tokens, and each names a token that was open and matching |
| PlayArea.JudgeCloses | components/PlayArea.tsx:78-85 | checking an open blank keeps its text, id, word flag and position, and closes it exactly when its input matches |
| PlayArea.CheckOneReports | components/PlayArea.tsx:57-88 | checking or hinting an enabled input reports at most its own position, only a position that was open and is now closed, and reopens nothing |
| PlayArea.CheckAllReports | components/PlayArea.tsx:90-96 | `checkAll` reports each position at most once, only positions that were open and are now closed, and reopens nothing |
| PlayArea.StepReportsOnlyOpen | components/PlayArea.tsx:136-166 | whatever event arrives, every reported position was open before the event and is closed after it, and no position is reported twice |
| PlayArea.SecondBlurReportsNothing | components/PlayArea.tsx:72-81 | leaving a matching input reports its position, and leaving it again reports nothing, because the input is then disabled |
| PlayArea.RunReports | components/PlayArea.tsx:19-20 | over any sequence of events no position is reported twice, and each reported position was open at the start and is closed at the end |
| PlayArea.ReportsHidden | components/PlayArea.tsx:19-20 | from a round hiding exactly a given list of positions, the positions reported over any sequence of events are distinct and all on that list |
| PlayArea.RoundReportsSelected | components/PlayArea.tsx:28-96 | over any sequence of events in a new round, the positions reported as known are distinct and are all positions the selector chose to hide |
| PlayArea.AnyCasingIsAccepted | components/PlayArea.tsx:64-65 | a word typed in any letter case and padded with whitespace matches the token |
| PlayArea.MatchesNormalises | components/PlayArea.tsx:64-78 | the answer test ignores letter case on either side and whitespace around the input: lower-casing either side or trimming the input never changes the verdict |
| App.UpdateProgress | App.tsx:87-98 | with no text selected nothing changes; a known position changes nothing; otherwise it is appended to the text's list (missing means empty); no other entry changes |
| App.UpdateProgressIdempotent | App.tsx:91-92 | reporting a position twice is reporting it once |
| App.UpdateProgressKnown | App.tsx:87-98 | a report adds exactly the position to the text's known set |
| App.UpdateProgressKeepsDistinct | App.tsx:91-96 | progress lists never hold a position twice |
| App.ApplyReportsKnown | App.tsx:114 | after a series of reports the known set grows by exactly the reported positions, and other texts' progress is unchanged |
| App.AddText | App.tsx:68-75 | the new text, with no play time, goes in front; the rest and the progress are unchanged |
| App.DeleteText | App.tsx:77-85 | every text with the id goes, every other text stays as often as before, and only the id's progress entry goes |
| App.DeleteKeepsOrder | App.tsx:78 | deleting keeps the order of the remaining texts |
| App.DeleteTextIdempotent | App.tsx:77-85 | deleting twice is deleting once |
| App.DeleteUndoesAdd | App.tsx:68-85 | deleting a text just added under a fresh id restores the library |
| App.ProgressOnLoad | App.tsx:34-48 | loading fails exactly on `null`, where `Object.keys` throws; a reset happens only for objects or arrays |
| App.OnlyFirstKeyMatters | App.tsx:38-39 | only the first key's value is inspected |
| App.CurrentFormatKept | App.tsx:38-44 | progress saved in the current format is never reset |
| App.LegacyFormatReset | App.tsx:38-41 | progress saved in the old format is reset exactly when the first text's word list is non-empty |

## Left out

- React rendering, `useEffect` and the strict-mode double call of state updaters are view plumbing. The calls to `onUpdateProgress` and `setSolvedCount` made inside an updater become the reported positions and the solved count of an `Outcome`.
- `localStorage`, `JSON.parse` and `JSON.stringify` are storage I/O, and the surrounding `try`/`catch` becomes the `Fail` decision. The parsed value is a `Json` datatype whose object entries come in `Object.keys` order; the integer-like-keys-first ordering is not modelled.
- `Math.random` and the comparator-based shuffle are randomness. The shuffled pools are parameters, constrained only to be permutations.
- The Unicode classes `\p{L}`, `\p{N}` and `\s` need Unicode tables. They are exact for U+0000 to U+00FF and for the whole `\s` set. Above U+00FF, every non-space character outside the General Punctuation block counts as word-forming.
- `toLowerCase` outside Latin-1 needs Unicode tables and is left out: only ASCII and Latin-1 capitals are lowered. String lengths are counted in characters, not UTF-16 units.
- Chars.Trim: states only that the result is no longer than the input and has no whitespace at either end. That the result is the input with its outer whitespace removed is proved separately, in `Chars.TrimPadded`, for the padded strings the game compares.
- The `progressPct` percentage is floating-point display logic.
- `Date.now()` is a clock, so the new text's id is a parameter. `window.confirm` is UI.
- The non-blank title and content guard is in components/TextManager.tsx, which is not part of this model, so `App.AddText` accepts any title and content.
- `handleSelectText` and the view switch are navigation, not logic.
- Build configuration (vite.config.ts, capacitor.config.ts) is not logic.
