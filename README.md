# Quiz session state, modelled in Dafny

This project models the client-side quiz session state of a browser quiz application. A
React hook keeps the answer records of one topic and the topic's question count. It derives
running statistics and persists everything in the browser's key-value storage under
`quiz_state_<topicId>`. The summary screen grades the final score into five bands.

Modules:

- `Wrappers` (`wrappers.dfy`): `Option`, standing for JavaScript's `undefined`.
- `Scoring` (`scoring.dfy`): the score `Math.round(correct / total * 100)`, or 0 without questions.
  Both the hook and the summary screen use it.
- `QuizAnswers` (`answers.dfy`): the pure part of the hook. It holds the `UserAnswer` and
  `QuizState` records, the correctness check, the append-or-replace update of `recordAnswer`,
  the `find`/`some` lookups and `getQuizStats`.
- `QuizStorage` (`storage.dfy`): the slot key and the stored payload. A stored string is
  abstracted to what parsing it yields: an object whose two fields may each be missing, or
  `Corrupt`. The module also holds the load fallback and the save encoding.
- `QuizSession` (`session.dfy`): the hook as a class `Session`. The hook's state variables are
  fields and the storage area is a `map` field. The three effects run inside the methods that
  trigger them:
  - `Mount`: the client flag is set, then the load effect and the save effect run.
  - `SwitchTopic`: a new topic id runs the load effect and the save effect.
  - `RecordAnswer`, `ResetQuiz` and an `UpdateTotalQuestions` that changes the total run the save
    effect once initialised. `ClearOtherTopics` never saves.

  A storage call that throws is a boolean parameter; when it is true, that write or removal
  has no effect. `ExampleFirstVisit` and `ExampleSwitchAndClear` walk through typical call
  sequences and assert the statistics and the storage contents.
- `QuizSummary` (`summary.dfy`): the summary screen's score, its unanswered count and the
  unanswered note. It also picks the performance message and colour. Both use one chain of
  thresholds (90, 80, 70, 60), stated against an independent band count.

Behaviour of the code that a reader might not expect. The model follows the code in each case:

- Correctness is "same length, and every selected id is among the correct ids". It is not set
  equality when a list holds duplicates. `[1,1]` against `[1,2]` is accepted, and `[1]` against
  `[1,1]` is rejected (`DuplicatesDepartFromSetEquality`). For duplicate-free lists it is
  exactly set equality (`IsCorrectIsSetEquality`).
- `unanswered` is `totalQuestions - answeredQuestions` and is not clamped at zero
  (`UnansweredNotClamped`).
- `clearOtherTopics` is a separate operation of the hook. Switching topics does not run it.
- After `resetQuiz` removes the slot, the save effect writes the empty state back. So a later
  load gives the empty state either way.

## Model

| member | source | states |
|---|---|---|
| `Scoring.Percentage` | src/hooks/useQuizState.ts:112 | 0 without questions; otherwise the integer nearest to 100·correct/total, halves rounded up |
| `Scoring.PercentageInRange` | src/hooks/useQuizState.ts:112 | with 0 ≤ correct ≤ total the score lies in [0, 100] |
| `Scoring.PercentageMonotone` | src/components/QuizSummary.tsx:24 | more correct answers never give a lower score |
| `Scoring.PercentageExact` | src/components/QuizSummary.tsx:24 | a whole-number score is given exactly (all correct gives 100) |
| `QuizAnswers.EveryIncluded` | src/hooks/useQuizState.ts:78 | true iff every selected id occurs among the correct ids |
| `QuizAnswers.IsCorrect` | src/hooks/useQuizState.ts:77-78 | true iff the lengths agree and every selected id is a correct id |
| `QuizAnswers.IsCorrectIsSetEquality` | src/hooks/useQuizState.ts:77-78 | for duplicate-free lists, correct iff the two id sets are equal, so a partial multi-select is incorrect |
| `QuizAnswers.IsCorrectIgnoresOrder` | src/hooks/useQuizState.ts:77-78 | permuting either list never changes the verdict |
| `QuizAnswers.DuplicatesDepartFromSetEquality` | src/hooks/useQuizState.ts:77-78 | `[1,1]`/`[1,2]` accepted and `[1]`/`[1,1]` rejected, against set equality; `[1]`/`[1,4]` rejected, `[4,1]`/`[1,4]` accepted |
| `QuizAnswers.GetQuestionAnswer` | src/hooks/useQuizState.ts:124-126 | absent iff no record has the number; otherwise the first record with that number |
| `QuizAnswers.IsQuestionAnswered` | src/hooks/useQuizState.ts:119-121 | true iff some record has the number and is answered |
| `QuizAnswers.AnsweredAgreesWithLookup` | src/hooks/useQuizState.ts:119-126 | with unique numbers, answered iff the looked-up record exists and is answered |
| `QuizAnswers.ReplaceNumbered` | src/hooks/useQuizState.ts:83-87 | same length; each record with the number becomes the new record, every other is kept in place |
| `QuizAnswers.Recorded` | src/hooks/useQuizState.ts:80-91 | an existing number: length and positions kept, only that number's records replaced; a new number: exactly one record appended |
| `QuizAnswers.RecordedKeepsUnique` | src/hooks/useQuizState.ts:80-91 | unique question numbers stay unique |
| `QuizAnswers.Overwrite` | src/hooks/useQuizState.ts:85 | the overwritten record keeps its number and takes the new selection and verdict, marked answered |
| `QuizAnswers.RecordedThenLookup` | src/hooks/useQuizState.ts:80-91 | afterwards the lookup returns the new record and the question counts as answered |
| `QuizAnswers.RecordedLeavesOthers` | src/hooks/useQuizState.ts:83-87 | the lookup of every other number is unchanged |
| `QuizAnswers.RecordedReplacesOne` | src/hooks/useQuizState.ts:83-87 | with unique numbers, re-recording replaces exactly the one record at its index |
| `QuizAnswers.Filter` | src/hooks/useQuizState.ts:101-103 | no longer than its input; every kept record passes the test and every passing record is kept |
| `QuizAnswers.FilterAppend` | src/hooks/useQuizState.ts:101-103 | filtering a concatenation filters each part in order |
| `QuizAnswers.FilterMultiplicity` | src/hooks/useQuizState.ts:101-103 | a passing record occurs as often as in the input, any other record not at all |
| `QuizAnswers.FilterCountsPositions` | src/hooks/useQuizState.ts:101-103 | the number of kept records is the number of positions whose record passes |
| `QuizAnswers.FilterAnsweredThenRight` | src/hooks/useQuizState.ts:101-102 | filtering answered records and then correct ones keeps exactly the answered correct records |
| `QuizAnswers.RightWrongPartition` | src/hooks/useQuizState.ts:102-103 | the correct and incorrect records together are all the records |
| `QuizAnswers.AnsweredCount` | src/hooks/useQuizState.ts:101 | the number of positions holding an answered record |
| `QuizAnswers.CorrectCount` | src/hooks/useQuizState.ts:101-102 | the number of positions holding an answered and correct record |
| `QuizAnswers.GetQuizStats` | src/hooks/useQuizState.ts:100-116 | answered and correct are the counts of answered and of answered correct records; correct + incorrect = answered; unanswered = total − answered; the score is the rounded percentage of correct over total, 0 without questions and in [0,100] when correct ≤ total |
| `QuizSession.NoAnswersStats` | src/hooks/useQuizState.ts:100-112 | no records and no questions give all-zero statistics |
| `QuizSession.OneRightOfFiveStats` | src/hooks/useQuizState.ts:100-112 | one correct answer of five questions gives score 20, four unanswered |
| `QuizAnswers.UnansweredNotClamped` | src/hooks/useQuizState.ts:104 | one answered record and total 0 give unanswered −1 |
| `QuizAnswers.CountsAppend` | src/hooks/useQuizState.ts:101-102 | answered and correct counts add up over concatenation |
| `QuizAnswers.StatsAfterNewAnswer` | src/hooks/useQuizState.ts:100-111 | a new question adds one answered record, counted as correct or as incorrect, and unanswered drops by one |
| `QuizAnswers.CountsAfterReanswer` | src/hooks/useQuizState.ts:100-111 | re-recording an answered record keeps the answered count and swaps one verdict |
| `QuizAnswers.StatsAfterReanswer` | src/hooks/useQuizState.ts:100-111 | re-answering keeps answered and unanswered; correct loses the old verdict and gains the new one |
| `QuizStorage.IsQuizKey` | src/hooks/useQuizState.ts:149 | true iff the key is `quiz_state_` followed by some text |
| `QuizStorage.StorageKey` | src/hooks/useQuizState.ts:22 | the key starts with `quiz_state_` and the topic id can be read back from it |
| `QuizStorage.StorageKeyInjective` | src/hooks/useQuizState.ts:22 | two topics share a key iff they are the same topic |
| `QuizStorage.ReadSlot` | src/hooks/useQuizState.ts:39 | present iff the key is stored, and then it is the stored value |
| `QuizStorage.Encode` | src/hooks/useQuizState.ts:64-69 | the saved object has both fields, and loading it gives back the saved state |
| `QuizStorage.Decode` | src/hooks/useQuizState.ts:38-56 | missing or corrupt slot gives the empty state; a parsed slot gives its fields, `[]` and `0` for missing ones |
| `QuizStorage.DecodeEncode` | src/hooks/useQuizState.ts:64-69 | saving then loading gives back the saved state |
| `QuizStorage.LoadSaveLoad` | src/hooks/useQuizState.ts:38-73 | re-saving a loaded state and loading again gives the same state |
| `QuizSession.Session.constructor` | src/hooks/useQuizState.ts:15-19 | empty state, not on the client, not initialised, storage as given |
| `QuizSession.Session.SaveEffect` | src/hooks/useQuizState.ts:60-73 | writes the encoded state under the active key iff on the client, initialised and the write succeeds; nothing else changes |
| `QuizSession.Session.LoadEffect` | src/hooks/useQuizState.ts:30-57 | the state becomes the decoded slot of the active key; initialised; the save effect writes it back, so the slot then loads to the state |
| `QuizSession.Session.Mount` | src/hooks/useQuizState.ts:25-27 | the first call sets the client flag and loads the active topic; later calls change nothing |
| `QuizSession.Session.SwitchTopic` | src/hooks/useQuizState.ts:29-57 | a new topic id on the client replaces the state with that topic's decoded slot; the same id, or before the client flag, changes nothing |
| `QuizSession.Session.RecordAnswer` | src/hooks/useQuizState.ts:76-92 | the answers become `Recorded(...)`; once initialised the slot is rewritten and loads back to the state; lookup returns the new record; unique numbers stay unique |
| `QuizSession.Session.UpdateTotalQuestions` | src/hooks/useQuizState.ts:95-97 | the total becomes the value; the slot is rewritten only when the value changed |
| `QuizSession.Session.ResetQuiz` | src/hooks/useQuizState.ts:129-140 | empty state; on the client the slot is removed and then rewritten empty, so a later load is empty unless both calls fail; other keys untouched |
| `QuizSession.Session.ClearOtherTopics` | src/hooks/useQuizState.ts:143-158 | on the client, exactly the `quiz_state_` keys other than the active one are removed; all kept keys keep their values; nothing happens off the client or when the key listing throws |
| `QuizSummary.PerformanceMessage` | src/components/QuizSummary.tsx:27-33 | the message's rank is the number of thresholds 60/70/80/90 the score reaches |
| `QuizSummary.PerformanceColor` | src/components/QuizSummary.tsx:35-41 | the colour's rank is the number of thresholds 60/70/80/90 the score reaches |
| `QuizSummary.BandCountsEach` | src/components/QuizSummary.tsx:27-31 | the band counts each threshold once |
| `QuizSummary.MessageAndColorAgree` | src/components/QuizSummary.tsx:27-41 | the colour chosen is always the one that belongs to the chosen message |
| `QuizSummary.ThresholdsMetMonotone` | src/components/QuizSummary.tsx:27-41 | a higher score reaches at least as many thresholds, for any thresholds |
| `QuizSummary.BandMonotone` | src/components/QuizSummary.tsx:27-41 | a higher score never gets a lower band, message or colour |
| `QuizSummary.Unanswered` | src/components/QuizSummary.tsx:25 | unanswered, correct and incorrect add up to the total, without clamping |
| `QuizSummary.ShowsUnansweredNote` | src/components/QuizSummary.tsx:91 | the note shows iff correct and incorrect together stay below the total |
| `QuizSummary.SummaryAgreesWithStats` | src/components/QuizSummary.tsx:24-25 | fed the hook's statistics, the summary's unanswered count and score equal the hook's |
| `QuizSummary.NoteShownWhileQuestionsRemain` | src/components/QuizSummary.tsx:91 | fed the hook's statistics, the unanswered note shows iff fewer questions are answered than the total |

## Left out

- `Scoring.Percentage`: uses exact rational rounding. The source divides and multiplies in
  binary floating point, which can land just below a half. For 29 correct out of 200, the
  product is 14.499999999999998, so `Math.round` gives 14 where the model gives 15.
- `QuizSession.Session.SwitchTopic`: gives only the settled result of a topic change. In the
  render where the id changes, the save effect runs with the new key but the previous topic's
  answers. The next render overwrites that write with the loaded state, but if the second
  write fails the slot keeps the stale answers.
- `QuizSession.Session.ClearOtherTopics`: models a storage failure only as a failure to list the
  keys, so that nothing is removed. A removal that throws halfway through the loop, leaving
  some keys removed, is not modelled.
- The load step is not given its own failure parameter. A `getItem` that throws takes the same
  branch as unparsable text, which `Corrupt` already covers.
- `Stored` covers only payloads whose present fields have the right shape. A field of the
  wrong type, or a `NaN` total, is not modelled.
- React mechanics are abstracted into sequential method calls. This covers `useState` batching,
  effect scheduling, `useCallback` memoisation and the `isClient` hydration flag. Between calls
  the client flag and the initialised flag agree (`Valid`).
- Numbers are unbounded integers. JavaScript numbers are doubles, but question numbers, option
  ids and counts stay small integers.
- `console.error` logging is dropped. So are the summary screen's JSX, icons, Spanish strings
  beyond which band was chosen, and the `handleGoHome` navigation.
- src/services/quizApi.ts (HTTP fetches), src/app/page.tsx and the question page (UI and async
  I/O), and src/components/QuizProgress.tsx (rendering; a floating-point width) are not part of
  this model.
