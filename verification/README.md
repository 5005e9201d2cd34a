# Constitution quiz game — a Dafny model of its core

The application is a small Next.js quiz. The user drops a spreadsheet whose rows
hold a statement (문제), the answer `O` or `X` (답) and an explanation (해설).
The quiz screen shuffles the rows, shows one at a time, scores each O/X press,
shows the explanation and records misses. Afterwards it can replay the missed
rows, shuffled again, in a review mode. A separate component groups a list of
missed questions into rows of the form "question, answer, explanation, how often
it was missed".

The model has four modules:

- `Types` (types.dfy) holds `Option`, the answer type `OX`, its one-letter
  spelling `Symbol`, and the predicate `Distinct`.
- `FisherYates` (fisher_yates.dfy) models `shuffleArray`. `Shuffle` is a
  recursive reference definition and `ShuffleArray` is the loop as written.
  `Math.random()` is replaced by a sequence of draws, one per iteration. Each
  draw is the index `Math.floor(Math.random() * (i + 1))` would produce, so it
  lies in `[0, i]`.
- `Quiz` (quiz.dfy) models the quiz screen of `app/page.tsx`:
  - the eight `useState` slots are one immutable `Session`;
  - the handlers `onDrop` (after parsing), `handleAnswer`, `nextQuestion` and
    `startReview` are pure transitions;
  - the JSX conditions that decide which controls are on screen are the
    predicate `Enabled`;
  - `Step` combines these into a state machine over user events, with a
    session invariant `Inv` that every event keeps.
- `WrongList` (wrong_list.dfy) models the `reduce` in
  `app/components/WrongListClient.tsx`, together with `Object.values`:
  - it groups missed questions by the key `question + "__" + answer`;
  - it keeps the first entry of each group and counts the group's entries;
  - it lists the groups in insertion order.

  The members and the lines they model:
  - `Key` is the template literal of line 21;
  - `Add` is the reducer callback of lines 20-25. It creates the group with
    count 0 when the key is new, then adds one to its count;
  - `Aggregate` is `wrongAnswers.reduce(..., {})` of lines 19-27, a fold from
    the empty accumulator `Counts([], map[])`;
  - `Values` is `Object.values` and `Rows` is `const rows =
    Object.values(counts)` of line 28.

  The `Rows*` lemmas and `AggregateDescribes` state the result against two
  independent reference definitions:
  - `Count(ws, id)`, the number of entries with a given (question, answer)
    pair;
  - `FirstIndex(ws, id)`, the position of the first such entry.

  The object is modelled as an insertion-ordered map keyed by the identity
  (question, answer). `KeyIdentifies` proves that the string key separates
  exactly these identities. `KeyIsNotIndexLike` proves that no key is an
  array-index-like string, which is why JavaScript lists the keys in
  insertion order.

What the code does, and so what the model does:

- Answers are compared with a strict `===` against the raw cell. Nothing is
  trimmed or case-folded.
- There is no "finished" state: `nextQuestion` wraps round modulo the number of
  questions.
- Nothing is persisted.
- The quiz screen keys miss counts by the statement text alone. Two rows with the
  same text but different answers share one counter.
- The wrong-list component keys by text and answer.

## Model

| member | source | states |
|---|---|---|
| `Types.Symbol` | app/components/WrongListClient.tsx:5 | The two answers are spelled as the one-character strings `O` and `X`, distinct from each other and from the underscore of the group key. |
| `FisherYates.ShuffleArray` | app/page.tsx:17-24 | The loop, run on a copy, produces exactly the reference shuffle for the given draws; the result has the input's length and the same multiset of rows. |
| `FisherYates.ShuffleIsPermutation` | app/page.tsx:17-24 | Shuffling only reorders: the result is a permutation of the input (same length, same multiset). |
| `FisherYates.EveryPermutationReachable` | app/page.tsx:19-22 | For every reordering of the input there are valid draws, one per iteration with draw k in [0, n-1-k], that produce it. |
| `FisherYates.ShuffleInjective` | app/page.tsx:19-22 | On distinct rows, different valid draw sequences give different orders; with the previous row, the draws are a bijection onto the orderings, so uniform draws give a uniform shuffle. |
| `FisherYates.ValidDrawsBounds` | app/page.tsx:19-20 | The loop from n-1 down to 1 makes n-1 draws (none for an empty list), and the k-th draw is at most n-1-k. |
| `Quiz.Load` | app/page.tsx:33-41 | After a file is parsed, the question list is a permutation of the parsed rows, and every other slot is back to its first-render value, whatever the session held before. |
| `Quiz.Answer` | app/page.tsx:48-61 | Records the choice, scores it by exact equality with the answer cell, and shows the explanation. A miss in normal mode appends the current row to the wrong list and raises that text's miss count by one (from 0 when absent), leaving other counts alone. A hit, or any answer in review mode, changes neither. |
| `Quiz.Next` | app/page.tsx:64-69 | The index stays within the list and wraps from the last question to the first; the answer, score and explanation are cleared and nothing else changes. |
| `Quiz.StartReview` | app/page.tsx:71-80 | Without missed rows nothing happens. Otherwise the questions become a permutation of the missed rows, the index is 0, the answer is cleared, the wrong list is emptied, the mode is review, and the miss counts are kept. |
| `Quiz.Step` | app/page.tsx:94-169 | An action has an effect exactly when its control is rendered: the drop zone while no questions are loaded, O/X while unanswered, next after an answer, and review in normal mode with misses after an answer. The index stays in range. |
| `Quiz.TallyAppend` | app/page.tsx:56-60 | Appending a missed row adds one to the tally of its text and leaves every other text's tally unchanged, as the update that starts an absent text from 0 does. |
| `Quiz.StepPreservesInv` | app/page.tsx:33-80 | Every action keeps the session invariant. The index is in range. Answer, score and explanation appear together, and the score is that of the recorded choice. Review mode has questions and an empty wrong list. In normal mode the miss counts equal the per-text tally of the wrong list, and every missed row is a loaded row. |
| `Quiz.InitialInv` | app/page.tsx:8-15 | The first-render state satisfies the session invariant. |
| `Quiz.ReviewIsFinal` | app/page.tsx:159-162 | Once in review mode no action returns to normal mode: the review button needs normal mode and the drop zone needs an empty list. |
| `Quiz.QuestionsStayLoaded` | app/page.tsx:94-99 | Once a non-empty set is loaded, no action empties the question list again. |
| `Quiz.MissCountsNeverDecrease` | app/page.tsx:54-61 | No action lowers a miss count or drops a text that has one. |
| `Quiz.ReviewReplaysMisses` | app/page.tsx:71-73 | Every question replayed in review is a loaded row whose text has a miss count. |
| `Quiz.AdvanceWraps` | app/page.tsx:65 | After k presses of next, the index has moved k places round the list, modulo its length. |
| `Quiz.FullRoundReturns` | app/page.tsx:65 | After one press of next per question, the same question is current again; the quiz never finishes. |
| `Quiz.ChoicesLockUntilNext` | app/page.tsx:118-153 | After an answer the O/X buttons are gone and next is shown, and after next it is the other way round, so a question cannot be answered twice before moving on. |
| `Quiz.CountsKeyedByTextOnly` | app/page.tsx:55-60 | For any session in normal mode, when the current row and the next one share a statement text and both are missed, that text's one counter rises by exactly two, whatever their answer cells are. |
| `WrongList.KeyIdentifies` | app/components/WrongListClient.tsx:21 | Two questions get the same string key exactly when they have the same question text and answer. |
| `WrongList.KeyIsNotInherited` | app/components/WrongListClient.tsx:21-22 | No key is the name of a member every object inherits (`constructor`, `toString`, `__proto__`, ...), because every key ends in `O` or `X`; so `!acc[key]` holds exactly for keys not yet stored, and the fold starts each group at count 0. |
| `WrongList.KeyIsNotIndexLike` | app/components/WrongListClient.tsx:21 | No key is a string of digits, so the accumulator object lists its groups in insertion order. |
| `WrongList.AggregateDescribes` | app/components/WrongListClient.tsx:19-27 | After the fold, each (question, answer) pair among the entries has exactly one group. The group holds the first entry with that pair and the number of entries with it, and groups are listed in order of first occurrence. |
| `WrongList.RowsOnePerIdentity` | app/components/WrongListClient.tsx:19-28 | No two rendered rows share a question and answer, and every missed entry's pair has a row. |
| `WrongList.RowsCountOccurrences` | app/components/WrongListClient.tsx:21-23 | A row's count is the number of missed entries with its question and answer, hence at least one. |
| `WrongList.RowsKeepFirstOccurrence` | app/components/WrongListClient.tsx:22 | A row shows the first missed entry with its pair; later entries of the same pair never replace it. |
| `WrongList.RowsInFirstOccurrenceOrder` | app/components/WrongListClient.tsx:21-28 | Rows are listed in the order their pairs first occur among the missed entries. |
| `WrongList.RowCountsSumToLength` | app/components/WrongListClient.tsx:19-27 | The row counts add up to the number of missed entries. |
| `WrongList.NoRowsWithoutMisses` | app/components/WrongListClient.tsx:28-36 | There are rows exactly when there are missed entries, so the "no wrong answers" message shows exactly for an empty list. |
| `WrongList.FirstExplanationWins` | app/components/WrongListClient.tsx:22-23 | Any two misses with the same question and answer make exactly one row, with count 2, showing the first of them whatever the second's explanation. |

## Left out

- Reading the dropped file is left out: `FileReader`, `XLSX.read` and `sheet_to_json` are I/O and a third-party parser. The model starts from the parsed rows, and `Load` receives them as a parameter.
- Only the first dropped file is read (`acceptedFiles[0]`); further files are ignored. With no file, `acceptedFiles[0]` is `undefined` and `readAsArrayBuffer` (page.tsx line 43) throws before any state changes. Neither case is modelled, because the file list belongs to the drop-zone library.
- `Math.random()` is not modelled. Each call is one element of a caller-supplied draw sequence. Uniformity is argued through the bijection lemmas (`EveryPermutationReachable`, `ShuffleInjective`), not proved as a probability.
- Rendering and styling are left out: the JSX markup, class names and text, the review-mode banner (page.tsx lines 171-178), layout.tsx and tailwind.config.js. Only the conditions that decide which controls exist are modelled, in `Enabled`.
- The miss-statistics panel (page.tsx lines 180-191) only lists `wrongCounts` entries. For statement texts that are not the name of an inherited object member (see the `Quiz.Answer` line below), its contents are the map that `Quiz.Answer` and `Quiz.StepPreservesInv` describe. The listing order of `Object.entries` is not modelled.
- Spreadsheet rows are `any` in the source. The model fixes them to three string cells. A row without an answer cell, or with a non-string cell, is not modelled.
- `Quiz.Next` requires a non-empty question list. In the source, `% 0` on an empty list would give `NaN`. This cannot happen through the UI, because the next button is only rendered once questions are loaded.
- `Quiz.Answer` requires the index to be within the list. In the source, an index outside the list would throw on `questions[current]["답"]`. Again the O/X buttons are only rendered once questions are loaded.
- Quiz.Answer: `wrongCounts` is a plain object, so for a statement text that names a member inherited from `Object.prototype` (`constructor`, `toString`, `valueOf`, `hasOwnProperty`, `__proto__`, ...), `prev[questionText] || 0` reads that member instead of 0. The source then stores a string instead of a count: `"function Object() { [native code] }1"` for `constructor`, `"[object Object]1"` for `__proto__`. The model treats every text as an ordinary key and stores 1. The wrong-answer list is not affected, since its keys never take these names (`WrongList.KeyIsNotInherited`).
- Quiz.Step: the reset of page.tsx lines 33-41 runs in `reader.onload`, after the file has been read, and only the drop itself is gated by the drop zone (line 94). The model treats drop and read as one atomic event, enabled only while no questions are loaded. In the source, a second file dropped while the first is still being read completes later and resets the session. It may then leave review mode, clear the miss counts, or empty the list if its sheet has no rows. `Quiz.ReviewIsFinal`, `Quiz.QuestionsStayLoaded` and `Quiz.MissCountsNeverDecrease` therefore hold of the source only when file reads do not overlap.
- React's batching of state updates is not modelled. Each handler is one atomic transition; the updater-function forms used on lines 56-60 and 65 give the same result under batching.
- `WrongListClient`'s `onBack` button is left out: navigation only.
- app/wrong-list/page.tsx is left out. It reads an untyped `wrongList` entry from `localStorage`, which nothing in app/page.tsx writes, and renders each item's `id` and `count` with its own markup. It does not use `WrongListClient`.
