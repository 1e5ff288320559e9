# AI maturity checker — a verified model of its core logic

The AI maturity checker is a survey web application. A user answers yes/no questionnaires per
dimension of AI maturity. The application stores the answers per user and dimension, derives the
capability levels the user has attained, and shows progress tables, a gap analysis against the
user's priority dimensions and a roadmap of missing actions. Administrators edit the topics and
capability levels through two update routes guarded by a shared secret.

This project models that logic in Dafny, one module per source file, with small shared modules:

- `Wrappers` (Option), `Seqs` (filter, flatMap, `new Set`, subsequences), `Strings` (ASCII case
  folding, `split`, decimal digits), `Records` (the stored record shapes), `Percent`
  (`Math.round` of a share), `Flags` (per-key boolean toggles), `Persisted` (the add-if-absent
  lists the hooks keep in browser storage), `AdminTables` (the two edited tables and `update`).
- `Validation`, `AdminCheck`, `Conversation`, `Levels`, `Recommendations`, `SaveAnswers`,
  `Roadmap`, `Roadmap2`, `Profile`, `ProfileOld`, `Results`, `Progress`, `Questions`,
  `DimensionsHook`, `StepsHook`, `Steps2Hook`, `AdminUpdate`, `AdminUpdateOld`.

The model takes the form of each source. Pure expressions are functions with lemmas. Loops that
build lists and maps are methods with loop invariants, each proved equal to a specification
function whose properties are lemmas. The questionnaire component and the three hooks are
classes whose methods update their fields. The progress page sorts an array in place. Database
reads are parameters. The edited tables are maps passed in and returned. Browser storage is a
map from key to the stored list.

## Model

| member | source | states |
|---|---|---|
| Validation.ValidateCredentials | ai-maturity-checker/utils/validation.ts:1-25 | no message exactly when both fields are non-empty, at most 50 characters, free of `< > { } ;`, the password has at least 8 characters and a given repeat equals it; any message is one of the five |
| Validation.EmptyIsRequired | ai-maturity-checker/utils/validation.ts:8-10 | an empty email or password always gives "Email and password are required" |
| Validation.EmailLengthBoundary | ai-maturity-checker/utils/validation.ts:11-13 | a 51-character email gets the length message; 50 characters never does |
| Validation.LongPasswordReportsMaximum | ai-maturity-checker/utils/validation.ts:11-19 | an over-long password gets the maximum-length message, not the minimum-length one |
| Validation.ForbiddenBeforeMinimum | ai-maturity-checker/utils/validation.ts:14-19 | a forbidden character is reported before a too-short password |
| Validation.PasswordMinimum | ai-maturity-checker/utils/validation.ts:17-24 | 7 characters are too short; 8 clean characters with no repeat are accepted |
| Validation.RepeatPassword | ai-maturity-checker/utils/validation.ts:20-22 | once the earlier checks pass, a differing repeat always gives the mismatch message and an equal one is accepted |
| Validation.NoRepeatNeverMismatch | ai-maturity-checker/utils/validation.ts:20 | for every email and password, no repeat never gives the mismatch message |
| Validation.LongEmailExample | ai-maturity-checker/utils/validation.ts:11-13 | a concrete 51-character email is rejected by length |
| AdminCheck.IsAdminSalis | ai-maturity-checker/app/lib/checkAdminSalis.ts:1-7 | false when the given or the configured secret is missing or empty; otherwise true iff their lower-case forms are equal |
| AdminCheck.IsAdminEmail | ai-maturity-checker/app/lib/checkAdmin.ts:3-10 | false when the email or the admin email is missing or empty; otherwise true iff their lower-case forms are equal |
| AdminCheck.SalisSymmetric | ai-maturity-checker/app/lib/checkAdminSalis.ts:6 | swapping the two secrets does not change the answer |
| AdminCheck.CaseInsensitive | ai-maturity-checker/app/lib/checkAdminSalis.ts:6 | two inputs that differ only in letter case get the same answer from both gates |
| AdminCheck.EmailExample | ai-maturity-checker/app/lib/checkAdmin.ts:9 | "A@x" matches "a@X" |
| AdminCheck.DifferentEmails | ai-maturity-checker/app/lib/checkAdmin.ts:9 | emails with different lower-case forms never match |
| Strings.Lower | ai-maturity-checker/app/lib/checkAdminSalis.ts:6 | same length, each character lower-cased (ASCII) |
| Strings.FirstSegmentSpec | ai-maturity-checker/app/questions/page.tsx:29 | `split('-')[0]` is the longest prefix without the separator; it is the whole string iff there is no separator |
| Strings.SecondSegmentSpec | ai-maturity-checker/app/results/page.tsx:73 | `split('-')[1]` is missing iff there is no separator, and otherwise is the text right after the first separator up to the second one or the end |
| Strings.DigitsOf | ai-maturity-checker/app/progress/page.tsx:52 | `replace(/\D/g, '')` gives only digits, exactly the digits that occur, as a subsequence of the text |
| Strings.DigitsCount | ai-maturity-checker/app/progress/page.tsx:52 | each digit occurs as often as in the text and no other character occurs |
| Strings.ParseNatToString | ai-maturity-checker/app/api/save-answers/route.ts:29 | reading back the decimal text of a number gives that number |
| Strings.NatToStringInjective | ai-maturity-checker/app/api/save-answers/route.ts:29 | distinct numbers have distinct decimal texts |
| Seqs.Filter | ai-maturity-checker/app/recommendations/page.tsx:91-92 | `filter` keeps exactly the elements satisfying the predicate, as a subsequence in the original order |
| Seqs.FilterCount | ai-maturity-checker/app/recommendations/page.tsx:91-92 | each kept element occurs as often as in the input, every other not at all |
| Seqs.Dedup | ai-maturity-checker/app/recommendations/page.tsx:85 | `[...new Set(s)]` has no duplicates, the same members, and is a subsequence of the input |
| Seqs.DedupOrder | ai-maturity-checker/app/recommendations/page.tsx:85 | `[...new Set(s)]` lists its elements in the order of their first occurrence in the input |
| Seqs.FlatMapMember | ai-maturity-checker/app/recommendations/page.tsx:84 | an element is in a `flatMap` iff it is in the image of some element |
| Conversation.ConversationState.constructor | ai-maturity-checker/components/Conversation4.tsx:37-41 | empty questions, log and queue, no notes, summary hidden |
| Conversation.ConversationState.LoadFile | ai-maturity-checker/components/Conversation4.tsx:49-54 | with a file the log is exactly the first question with its id as path; without one nothing changes |
| Conversation.ConversationState.HandleAnswer | ai-maturity-checker/components/Conversation4.tsx:56-77 | the new log and queue are those of `AnswerStep`; the summary is hidden and nothing else changes |
| Conversation.ConversationState.HandleBack | ai-maturity-checker/components/Conversation4.tsx:79-85 | the log becomes `BackStep` of the old log; the queue is unchanged and the summary hidden |
| Conversation.ConversationState.EditAnswer | ai-maturity-checker/components/Conversation4.tsx:201-219 | only the edited entry's selection changes, to "Yes" or "No" |
| Conversation.ConversationState.SetExtraInfo | ai-maturity-checker/components/Conversation4.tsx:175-180 | the notes become the typed text |
| Conversation.ConversationState.ShowSummary | ai-maturity-checker/components/Conversation4.tsx:183 | the summary is shown |
| Conversation.ConversationState.Payload | ai-maturity-checker/components/Conversation4.tsx:103-111 | the posted body carries the email, dimension and notes and one item per log entry |
| Conversation.RootCount | ai-maturity-checker/components/Conversation4.tsx:70 | the number of root entries never exceeds the log length |
| Conversation.FindIndex | ai-maturity-checker/components/Conversation4.tsx:69 | `findIndex`: -1 iff no question has the id, otherwise the first position with it |
| Conversation.AnswerTruncates | ai-maturity-checker/components/Conversation4.tsx:57-58 | answering at `index` keeps the earlier entries, sets only that entry's selection, drops the later ones and appends at most one |
| Conversation.FollowUpsAppendFirst | ai-maturity-checker/components/Conversation4.tsx:60-63 | an answer with follow-ups appends its first follow-up under the parent path and the queue becomes the rest, discarding the old queue |
| Conversation.QueueHeadAppended | ai-maturity-checker/components/Conversation4.tsx:64-67 | without follow-ups the queue head is appended under the parent path and the queue shrinks by one |
| Conversation.RootQuestionAppended | ai-maturity-checker/components/Conversation4.tsx:68-73 | with an empty queue the root question at the first question's position plus the root-entry count is appended, or nothing when that is out of range |
| Conversation.AppendedBranchHasDot | ai-maturity-checker/components/Conversation4.tsx:62-66 | every entry appended from a follow-up or the queue has a '.' in its path |
| Conversation.BackPops | ai-maturity-checker/components/Conversation4.tsx:79-85 | back removes exactly the last entry and clears the selection of the new last one |
| Conversation.AnswerAllAnswered | ai-maturity-checker/components/Conversation4.tsx:170-171 | after an answer the notes field is offered iff the answer text is non-empty, every earlier entry is answered and no further question was appended |
| Conversation.BackNotAllAnswered | ai-maturity-checker/components/Conversation4.tsx:170-171 | after back the notes field is never offered |
| Conversation.BackThenReanswer | ai-maturity-checker/components/Conversation4.tsx:56-85 | after back the last entry is unanswered; answering it again keeps every earlier entry |
| Conversation.TwoFollowUpsInOrder | ai-maturity-checker/components/Conversation4.tsx:60-67 | two follow-ups are visited in order: the first is appended with the second queued, then the second follows |
| Conversation.PayloadItems | ai-maturity-checker/components/Conversation4.tsx:106-109 | one payload item per entry, in order, with the question id, and "" exactly where no answer is selected |
| Conversation.SavedAnswersFollowLog | ai-maturity-checker/components/Conversation4.tsx:106-109 | after saving, position `i` has an answer key iff its entry is answered, holding whether the answer is "yes" |
| Records.FindRecord | ai-maturity-checker/components/Roadmap.tsx:52-54 | `find` by dimension: none iff no record has it, otherwise a record of that dimension from the list |
| Levels.CompletedLevels | ai-maturity-checker/app/recommendations/page.tsx:49-63 | the nested loops push exactly the codes of `Completed`, records in order and levels in order |
| Levels.CompletedIff | ai-maturity-checker/app/recommendations/page.tsx:54-62 | a code is completed iff some record and a level of the same dimension with that code have every question answered exactly `true` |
| Levels.AttainedInMember | ai-maturity-checker/app/profile/page_old.tsx:56-63 | within one record, a code is pushed iff a level of that dimension with that code is attained |
| Levels.EmptyLevelCompleted | ai-maturity-checker/app/recommendations/page.tsx:58 | a level without questions is completed once its dimension has a record |
| Levels.PartialNotAttained | ai-maturity-checker/app/recommendations/page.tsx:58 | one question not answered `true` keeps the level from being attained |
| Levels.DimLevelsFilter | ai-maturity-checker/app/results/page.tsx:66 | the levels of a dimension are the level list filtered by dimension |
| Levels.LevelsWithCodesOrdered | ai-maturity-checker/app/recommendations/page.tsx:91-92 | the selected levels keep `allLevels` order and are exactly those whose code is listed, each as often as in `allLevels` |
| Recommendations.DesiredIff | ai-maturity-checker/app/recommendations/page.tsx:72-75 | a code is desired iff it is the code of a level whose dimension is a priority |
| Recommendations.GapDisjoint | ai-maturity-checker/app/recommendations/page.tsx:85-87 | the gap codes have no duplicates and contain nothing completed or desired |
| Recommendations.GapIff | ai-maturity-checker/app/recommendations/page.tsx:80-88 | a code is a gap iff it is a direct dependency of some desired level and is neither completed nor desired |
| Recommendations.NoGapExample | ai-maturity-checker/app/recommendations/page.tsx:80-88 | a desired level whose only dependency is completed yields no gap |
| Recommendations.FilterActions | ai-maturity-checker/app/recommendations/page.tsx:95-111 | the loop's actions are those of `FilteredActions`; the FAIR services and level actions are returned unchanged |
| Recommendations.KeptActionsIff | ai-maturity-checker/app/recommendations/page.tsx:102-108 | the kept keys are exactly the level's questions that have an actions entry and are not answered `true`, each with its own list |
| Recommendations.FilteredActionsCases | ai-maturity-checker/app/recommendations/page.tsx:96-110 | without a record for the dimension all actions are kept; in every case the kept actions are a sub-map of the level's |
| Recommendations.WithFilteredActions | ai-maturity-checker/app/recommendations/page.tsx:113-124 | one level per input level, each with its actions filtered and its other fields kept |
| Recommendations.Recommend | ai-maturity-checker/app/recommendations/page.tsx:49-124 | the gap and desired level lists are the levels with gap and desired codes, in level order, with filtered actions |
| Recommendations.FilterKeepsNoDups | ai-maturity-checker/app/recommendations/page.tsx:85-87 | filtering a duplicate-free list leaves it duplicate-free |
| SaveAnswers.BuildAnswers | ai-maturity-checker/app/api/save-answers/route.ts:26-32 | the `forEach` builds exactly `AnswersOf` |
| SaveAnswers.KeyInjective | ai-maturity-checker/app/api/save-answers/route.ts:29 | different positions get different keys, whatever the question ids are |
| SaveAnswers.AnswersOfAt | ai-maturity-checker/app/api/save-answers/route.ts:27-31 | position `i` has a key iff its answer is non-empty, and the value is true iff the answer is "yes" up to case |
| SaveAnswers.AnswersOfKeys | ai-maturity-checker/app/api/save-answers/route.ts:29 | every key is the key of some position |
| SaveAnswers.AnswersOfSpec | ai-maturity-checker/app/api/save-answers/route.ts:26-32 | the answer map has exactly the keys of the answered positions, each holding whether the answer is "yes" |
| SaveAnswers.MissingFieldsRejected | ai-maturity-checker/app/api/save-answers/route.ts:19-21 | a missing email, dimension or conversation, or an empty one, gives 400 and no write |
| SaveAnswers.NewRowHoldsRecord | ai-maturity-checker/app/api/save-answers/route.ts:34-38 | a user without a row gets an insert of exactly the new record; the notes default to "" |
| SaveAnswers.OtherDimensionsSpec | ai-maturity-checker/app/api/save-answers/route.ts:54 | the records kept are the `filter` of the other dimensions' records, in their order and unchanged, and every other dimension looks up as before |
| SaveAnswers.FindAppend | ai-maturity-checker/app/api/save-answers/route.ts:56 | a lookup in a list with a record appended finds an earlier record first, else the appended one |
| SaveAnswers.MergeRoundTrip | ai-maturity-checker/app/api/save-answers/route.ts:53-56 | the merged list is the other dimensions' records, in order and unchanged, followed by the new record; the dimension reads back as the new record and every other dimension reads as before |
| SaveAnswers.NotAnArrayReplaced | ai-maturity-checker/app/api/save-answers/route.ts:53-56 | a stored value that is not an array is replaced by the new record alone |
| Roadmap.StepsOf | ai-maturity-checker/components/Roadmap.tsx:51 | one step per level |
| Roadmap.CollectFairServices | ai-maturity-checker/components/Roadmap.tsx:73-89 | the `forEach` and pushes give exactly `FairServicesOf` |
| Roadmap.BuildStep | ai-maturity-checker/components/Roadmap.tsx:52-101 | the `map` callback gives exactly `StepOf` |
| Roadmap.MergedSteps | ai-maturity-checker/components/Roadmap.tsx:51-102 | the steps are exactly `StepsOf`, built one level at a time |
| Roadmap.StepsFollowLevels | ai-maturity-checker/components/Roadmap.tsx:93-101 | step `i` carries level `i`'s id, code and level actions (an absent list being []) |
| Roadmap.NotDoneExactly | ai-maturity-checker/components/Roadmap.tsx:52-65 | the unmet questions keep `question_ids` order and are exactly those without a truthy answer in the first record of the dimension; each occurs as often as in `question_ids`; all are unmet without a record |
| Roadmap.NotDoneActionsExactly | ai-maturity-checker/components/Roadmap.tsx:68-70 | an action is unmet iff it is non-empty and in the action list of some unmet question |
| Roadmap.CompletedIffNoActions | ai-maturity-checker/components/Roadmap.tsx:91 | a step is completed iff it has no unmet actions; a level whose questions have no actions is always completed |
| Roadmap.FairServicesOrder | ai-maturity-checker/components/Roadmap.tsx:73-89 | a service is listed iff it is global or belongs to an unmet question; the list ends with the global services; no FAIR services object gives [] |
| Roadmap.StepsOfSnoc | ai-maturity-checker/components/Roadmap2.tsx:53-98 | one more level appends exactly its step |
| Roadmap2.DefaultExpanded | ai-maturity-checker/components/Roadmap2.tsx:102-106 | the `forEach` builds exactly `ExpandedOf` |
| Roadmap2.ExpandedKeys | ai-maturity-checker/components/Roadmap2.tsx:102-106 | every step id has a flag and nothing else does |
| Roadmap2.ExpandedLastWins | ai-maturity-checker/components/Roadmap2.tsx:104 | a step's flag is "not completed" of the last step with its id, so with distinct ids each step starts open iff not completed |
| Flags.Toggle | ai-maturity-checker/components/Roadmap2.tsx:114-115 | the toggled key reads as the negation of before (absent reads false); every other key keeps its value |
| Flags.ToggleTwice | ai-maturity-checker/components/Roadmap2.tsx:114-115 | toggling a present key twice restores the flags |
| Flags.ToggleOthers | ai-maturity-checker/app/results/page.tsx:83-88 | toggling one key leaves how every other key reads unchanged |
| Profile.FlipCurrent | ai-maturity-checker/app/profile/page.tsx:43 | flips the current toggle and only it |
| Profile.FlipGap | ai-maturity-checker/app/profile/page.tsx:49 | flips the gap toggle and only it |
| Profile.FlipPriority | ai-maturity-checker/app/profile/page.tsx:55 | flips the priority toggle and only it |
| Profile.ColourOf | ai-maturity-checker/app/profile/page.tsx:78-85 | priority iff its toggle is on and the level is a priority; gap iff not priority and the gap toggle and membership hold; current iff neither and the current toggle and membership hold |
| Profile.PriorityWins | ai-maturity-checker/app/profile/page.tsx:84-85 | a priority level is coloured as priority whenever that toggle is on |
| Profile.UndefinedCases | ai-maturity-checker/app/profile/page.tsx:78-85 | with all toggles off, or for a level in no list, the block is undefined |
| Profile.MockExample | ai-maturity-checker/app/profile/page.tsx:33-35 | on the page's own data, D1-L2 shows as priority, D2-L2 as gap and D1-L1 as current |
| ProfileOld.PriorityLevels | ai-maturity-checker/app/profile/page_old.tsx:70-73 | the stored priority list replaces the empty initial one only when it is non-empty |
| ProfileOld.NaiveGapsExactly | ai-maturity-checker/app/profile/page_old.tsx:76-83 | a code is a gap iff some dependency row names it and it is not completed; one entry per such row |
| ProfileOld.NaiveGapsCount | ai-maturity-checker/app/profile/page_old.tsx:76-83 | an open code is listed as many times as dependency rows name it, a completed one never |
| ProfileOld.NaiveGapsKeepDuplicates | ai-maturity-checker/app/profile/page_old.tsx:79-81 | two rows for one open level list it twice |
| ProfileOld.RowLevelsExactly | ai-maturity-checker/app/profile/page_old.tsx:124 | a row shows exactly the levels of the topic's dimension, in level order |
| ProfileOld.SectionsExactly | ai-maturity-checker/app/profile/page_old.tsx:159-187 | each section lists exactly the levels whose code is current, gap or priority |
| Results.YesCount | ai-maturity-checker/app/results/page.tsx:71 | the yes count is at most the question count, equal to it iff all are answered yes, and 0 iff none is |
| Results.LevelPct | ai-maturity-checker/app/results/page.tsx:70-72 | the percentage is within 0..100, 0 without questions or yes answers, 100 when every question is answered yes |
| Results.LevelWrites | ai-maturity-checker/app/results/page.tsx:69-75 | one write per level |
| Results.WriteLevels | ai-maturity-checker/app/results/page.tsx:69-75 | the inner loop leaves the dimension's object as the writes applied in order |
| Results.CalculateProgress | ai-maturity-checker/app/results/page.tsx:60-79 | the outer loop builds exactly `ProgressOf` |
| Results.ApplyKeys | ai-maturity-checker/app/results/page.tsx:74 | writes add exactly their keys |
| Results.ApplyBounded | ai-maturity-checker/app/results/page.tsx:74 | writing percentages keeps every value within 0..100 |
| Results.DimWriteKeys | ai-maturity-checker/app/results/page.tsx:66-75 | the keys a record writes are the level keys of its dimension |
| Results.LevelWritesBounded | ai-maturity-checker/app/results/page.tsx:72 | every write is at most 100 |
| Results.DimLastWins | ai-maturity-checker/app/results/page.tsx:73-74 | a key holds the percentage of the last level of the dimension with that key |
| Results.ProgressDims | ai-maturity-checker/app/results/page.tsx:63-67 | every answered dimension gets an entry, even without levels, and no other dimension does |
| Results.ProgressLevelKeys | ai-maturity-checker/app/results/page.tsx:66-74 | a dimension's entry holds exactly its levels' keys |
| Results.ProgressBounded | ai-maturity-checker/app/results/page.tsx:72-74 | every stored percentage lies within 0..100 |
| Results.ProgressLastWins | ai-maturity-checker/app/results/page.tsx:63-76 | a cell holds the percentage of the last level with its key, from the last record of its dimension |
| Results.CellValue | ai-maturity-checker/app/results/page.tsx:115-129 | a missing dimension or level shows 0, otherwise the stored value |
| Results.CellClassExactlyOne | ai-maturity-checker/app/results/page.tsx:130-135 | each value in 0..100 gets exactly one of full, partial, low and empty |
| Results.MissingCellEmpty | ai-maturity-checker/app/results/page.tsx:129-135 | a missing dimension or level is shown as empty |
| Results.LevelKeyExamples | ai-maturity-checker/app/results/page.tsx:73 | "D1-L3" lands in column L3; a code without '-' lands under "undefined", which no column shows |
| Results.TogglePriority | ai-maturity-checker/app/results/page.tsx:83-88 | the toggled dimension reads as the negation of before, every other one as before |
| Percent.RoundPercent | ai-maturity-checker/app/results/page.tsx:72 | the result is the share times 100 rounded half up |
| Percent.RoundPercentRange | ai-maturity-checker/app/progress/page.tsx:59 | a share of at most the whole rounds to at most 100 |
| Percent.RoundPercentEnds | ai-maturity-checker/app/progress/page.tsx:59 | all yes rounds to 100 and none to 0 |
| Percent.RoundsToHundred | ai-maturity-checker/app/progress/page.tsx:59 | the rounded share is 100 iff at least 99.5% are yes |
| Percent.HundredBeforeAll | ai-maturity-checker/app/progress/page.tsx:59 | 199 yes of 200 already shows 100 |
| Progress.Insert | ai-maturity-checker/app/progress/page.tsx:51-55 | one pass extends the sorted prefix by one element and keeps the multiset |
| Progress.SwapStep | ai-maturity-checker/app/progress/page.tsx:51-55 | a swap with a larger left neighbour keeps the pass invariant and the multiset |
| Progress.PassDone | ai-maturity-checker/app/progress/page.tsx:51-55 | a finished pass leaves a sorted prefix one longer |
| Progress.SortBy | ai-maturity-checker/app/progress/page.tsx:50-55 | the array ends sorted by the key and a permutation of its old contents |
| Progress.SortByDimension | ai-maturity-checker/app/progress/page.tsx:50-55 | the rows end ordered by dimension number, as a permutation of the old rows |
| Progress.NumberOneDigit | ai-maturity-checker/app/progress/page.tsx:52 | D2 is dimension 2 |
| Progress.NumberTwoDigits | ai-maturity-checker/app/progress/page.tsx:52 | D10 is dimension 10, so D2 sorts before D10 |
| Progress.YesCount | ai-maturity-checker/app/progress/page.tsx:57-58 | the yes count never exceeds the key count |
| Progress.RowPercent | ai-maturity-checker/app/progress/page.tsx:59 | NaN (none) iff there are no answers, otherwise within 0..100 |
| Progress.CompleteIff | ai-maturity-checker/app/progress/page.tsx:68-70 | the complete style applies iff there are answers and at least 99.5% are yes |
| Progress.AllYesComplete | ai-maturity-checker/app/progress/page.tsx:59-70 | a record whose answers are all yes is complete |
| Progress.EmptyNotComplete | ai-maturity-checker/app/progress/page.tsx:59-70 | a record without answers is never complete |
| Questions.LessIrreflexive | ai-maturity-checker/app/questions/page.tsx:30 | the default string order is irreflexive |
| Questions.LessTotal | ai-maturity-checker/app/questions/page.tsx:30 | the default string order is total |
| Questions.LessTransitive | ai-maturity-checker/app/questions/page.tsx:30 | the default string order is transitive |
| Questions.LessEqTransitive | ai-maturity-checker/app/questions/page.tsx:30 | the non-strict order is transitive |
| Questions.InsertSorted | ai-maturity-checker/app/questions/page.tsx:30 | inserting adds exactly the element to the multiset |
| Questions.InsertSortedSorted | ai-maturity-checker/app/questions/page.tsx:30 | inserting into a sorted list keeps it sorted |
| Questions.InsertSortedNoDups | ai-maturity-checker/app/questions/page.tsx:30 | inserting a new element into a duplicate-free list keeps it duplicate-free |
| Questions.Sort | ai-maturity-checker/app/questions/page.tsx:30 | `sort()` returns a sorted permutation |
| Questions.SortNoDups | ai-maturity-checker/app/questions/page.tsx:28-30 | sorting a duplicate-free list keeps it duplicate-free |
| Questions.Prefixes | ai-maturity-checker/app/questions/page.tsx:29 | one prefix per question row, the text before its first '-' |
| Questions.FindTopic | ai-maturity-checker/app/questions/page.tsx:45 | `find` by dimension: none iff no topic has it, otherwise a topic of that dimension |
| Questions.UniqueDimensionsSpec | ai-maturity-checker/app/questions/page.tsx:28-30 | the list is duplicate-free, sorted, and holds exactly the prefixes of the question dimensions |
| Questions.TitleCases | ai-maturity-checker/app/questions/page.tsx:45-48 | the first topic of the dimension gives the title when it has one; without a topic it is `Untitled (<dim>)` |
| Questions.Merged | ai-maturity-checker/app/questions/page.tsx:44-50 | one entry per dimension, in order, with its title |
| Questions.Load | ai-maturity-checker/app/questions/page.tsx:23-52 | a failed read leaves the list unchanged |
| Questions.LoadShape | ai-maturity-checker/app/questions/page.tsx:44-52 | the shown entries follow the sorted dimensions one to one |
| Questions.Examples | ai-maturity-checker/app/questions/page.tsx:28-30 | "D1-Q3" gives dimension D1, and D10 sorts before D2 |
| Persisted.AddIfAbsent | ai-maturity-checker/hooks/useDimensions.tsx:50-54 | the id is in the result, whose members are the old ones and the id; the old list is its prefix and at most one entry is added |
| Persisted.AddIdempotent | ai-maturity-checker/hooks/useStepsProgress.ts:36-41 | adding a present id changes nothing, so adding twice is adding once |
| Persisted.AddAppends | ai-maturity-checker/hooks/useSteps2.tsx:34 | a new id goes last, after the old list in its order |
| Persisted.AddKeepsNoDups | ai-maturity-checker/hooks/useDimensions.tsx:52 | adding keeps a duplicate-free list duplicate-free |
| Persisted.AddAllSpec | ai-maturity-checker/hooks/useSteps2.tsx:32-36 | adding ids one by one gives each id once, in the order of its first occurrence: the list is `[...new Set(ids)]` |
| Persisted.Loaded | ai-maturity-checker/hooks/useDimensions.tsx:14-26 | a parsed list replaces the state; nothing stored or a parse failure keeps it |
| Persisted.Saved | ai-maturity-checker/hooks/useDimensions.tsx:29-35 | after mount the list is stored under the key and every other entry is kept; before mount nothing is written |
| Persisted.SaveThenLoad | ai-maturity-checker/hooks/useSteps2.tsx:11-30 | what was saved after mount is what the next load reads |
| Persisted.FailedLoadEmpty | ai-maturity-checker/hooks/useStepsProgress.ts:12-27 | an absent or unparsable entry leaves the list empty |
| DimensionsHook.DimensionsProgress.constructor | ai-maturity-checker/hooks/useDimensions.tsx:8-11 | the given user, no completed dimensions, unknown total, not mounted |
| DimensionsHook.DimensionsProgress.Load | ai-maturity-checker/hooks/useDimensions.tsx:14-26 | mounted, and the list is the loaded one |
| DimensionsHook.DimensionsProgress.ChangeUser | ai-maturity-checker/hooks/useDimensions.tsx:14-26 | the new user's load runs again; nothing stored keeps the previous user's list |
| DimensionsHook.DimensionsProgress.Save | ai-maturity-checker/hooks/useDimensions.tsx:29-35 | the storage after the save effect, under the user's key |
| DimensionsHook.DimensionsProgress.FetchTotal | ai-maturity-checker/hooks/useDimensions.tsx:38-48 | the row count on success, the previous total on error |
| DimensionsHook.DimensionsProgress.CompleteDimension | ai-maturity-checker/hooks/useDimensions.tsx:50-54 | the list becomes the old one with the id added if absent |
| DimensionsHook.DimensionsKeyInjective | ai-maturity-checker/hooks/useDimensions.tsx:6 | two users share a key iff they are the same user |
| DimensionsHook.AllCompletedCases | ai-maturity-checker/hooks/useDimensions.tsx:56-58 | false while the total is unknown, otherwise the count comparison |
| DimensionsHook.AllCompletedCovers | ai-maturity-checker/hooks/useDimensions.tsx:56-58 | for a duplicate-free list of topic ids, the count reaches the total iff every topic is in the list |
| DimensionsHook.DuplicatesCountTwice | ai-maturity-checker/hooks/useDimensions.tsx:56-58 | a stored list with one dimension twice counts as two |
| StepsHook.StepsProgress.constructor | ai-maturity-checker/hooks/useStepsProgress.ts:8-9 | no completed steps, not mounted |
| StepsHook.StepsProgress.Load | ai-maturity-checker/hooks/useStepsProgress.ts:12-27 | mounted, and the list is the loaded one |
| StepsHook.StepsProgress.Save | ai-maturity-checker/hooks/useStepsProgress.ts:29-34 | the storage after the save effect, under the fixed key |
| StepsHook.StepsProgress.CompleteStep | ai-maturity-checker/hooks/useStepsProgress.ts:36-41 | the list becomes the old one with the id added if absent |
| Steps2Hook.UserStepsProgress.constructor | ai-maturity-checker/hooks/useSteps2.tsx:7-9 | the given user, no completed steps, not mounted |
| Steps2Hook.UserStepsProgress.Load | ai-maturity-checker/hooks/useSteps2.tsx:11-24 | mounted, and the list is the loaded one |
| Steps2Hook.UserStepsProgress.ChangeUser | ai-maturity-checker/hooks/useSteps2.tsx:11-24 | the new user's load runs again; nothing stored keeps the previous user's list |
| Steps2Hook.UserStepsProgress.Save | ai-maturity-checker/hooks/useSteps2.tsx:26-30 | the storage after the save effect, under the user's key |
| Steps2Hook.UserStepsProgress.CompleteStep | ai-maturity-checker/hooks/useSteps2.tsx:32-36 | the list becomes the old one with the id added if absent |
| Steps2Hook.Steps2KeyInjective | ai-maturity-checker/hooks/useSteps2.tsx:5 | two users share a key iff they are the same user |
| Steps2Hook.StorageKeysDistinct | ai-maturity-checker/hooks/useStepsProgress.ts:5 | the fixed steps key, the per-user steps keys and the dimension keys never coincide |
| AdminTables.UpdateRow | ai-maturity-checker/app/api/admin/update/route.ts:32-34 | the same row ids, every other row unchanged, and the row with the id gets the written columns |
| AdminTables.AssignUntouched | ai-maturity-checker/app/api/admin/update/route_old.ts:34-37 | a column not written keeps its presence and value |
| AdminTables.AssignLast | ai-maturity-checker/app/api/admin/update/route.ts:32-34 | a written column holds its last written value |
| AdminTables.AssignKeys | ai-maturity-checker/app/api/admin/update/route_old.ts:47-56 | the row afterwards has its old columns plus the written ones |
| AdminUpdate.CheckLengths | ai-maturity-checker/app/api/admin/update/route.ts:25-29 | the inner loop reports exactly `FirstTooLong` |
| AdminUpdate.Post | ai-maturity-checker/app/api/admin/update/route.ts:5-43 | the tables after the request and the response are those of `Handle` |
| AdminUpdate.ProcessStops | ai-maturity-checker/app/api/admin/update/route.ts:19-36 | once a change has ended the request, later changes are never looked at |
| AdminUpdate.UnauthorizedUnchanged | ai-maturity-checker/app/api/admin/update/route.ts:10-13 | a wrong secret gives 401 before any update |
| AdminUpdate.NotArrayUnchanged | ai-maturity-checker/app/api/admin/update/route.ts:15-17 | a non-array `changes` gives 400 and no update |
| AdminUpdate.IncompleteSkipped | ai-maturity-checker/app/api/admin/update/route.ts:20-22 | a change without section, id or fields object is skipped |
| AdminUpdate.FirstTooLongSpec | ai-maturity-checker/app/api/admin/update/route.ts:25-29 | nothing is reported iff no string value is over 5000 characters, otherwise the column of the first such value |
| AdminUpdate.TooLongKeepsEarlier | ai-maturity-checker/app/api/admin/update/route.ts:19-29 | an over-long string ends the request with 400 naming its column, and the earlier changes stay written |
| AdminUpdate.LimitBoundary | ai-maturity-checker/app/api/admin/update/route.ts:26 | exactly 5000 characters pass, and non-string values are not measured |
| AdminUpdate.SectionEffect | ai-maturity-checker/app/api/admin/update/route.ts:31-35 | another section changes nothing; a change to one table leaves the other table and every other row as they were |
| AdminUpdateOld.Post | ai-maturity-checker/app/api/admin/update/route_old.ts:10-65 | the tables after the request and the response are those of `Handle` |
| AdminUpdateOld.TopicsStop | ai-maturity-checker/app/api/admin/update/route_old.ts:30-38 | once a topic edit has stopped section 1, later topic edits are never written |
| AdminUpdateOld.LevelsStop | ai-maturity-checker/app/api/admin/update/route_old.ts:43-57 | once a level edit has stopped section 2, later level edits are never written |
| AdminUpdateOld.RefusedUnchanged | ai-maturity-checker/app/api/admin/update/route_old.ts:16-26 | a wrong secret (401) or a present non-array section (400) changes nothing |
| AdminUpdateOld.Section1Aborts | ai-maturity-checker/app/api/admin/update/route_old.ts:29-39 | the first over-long topic gives 400; the topics before it stay written and the levels are untouched |
| AdminUpdateOld.Section2Aborts | ai-maturity-checker/app/api/admin/update/route_old.ts:42-58 | the first over-long level gives 400 after every topic and the levels before it are written |
| AdminUpdateOld.TopicWritesTwoColumns | ai-maturity-checker/app/api/admin/update/route_old.ts:34-37 | a topic edit writes title and details and leaves every other column as it was |
| AdminUpdateOld.LevelWritesCarriedColumns | ai-maturity-checker/app/api/admin/update/route_old.ts:47-56 | a level edit sets `capability_level` and `details` to the edit's values and each of `actions`, `fair_services` and `level_actions` it carries to its value; the row gains exactly those columns; an absent one and every other column keep what the row had |
| AdminUpdateOld.LimitBoundary | ai-maturity-checker/app/api/admin/update/route_old.ts:31-32 | a title of exactly 500 and details of exactly 5000 characters pass |

## Left out

- Database access (reads, `update`, `insert`, auth calls) is not modelled as I/O. Read results
  are parameters, a failed read is `None`, and the admin tables are maps passed in and returned.
- The admin routes ignore the error of each `update` call, and the model ignores it too. An
  update naming a column the table lacks changes nothing in the real database; the model adds
  the column to the row.
- Browser storage is a map from key to list. `JSON.stringify` followed by `JSON.parse` is taken
  to be exact. Text that does not parse is the `ParseFailed` value.
- React rendering, effect scheduling, scrolling, the editing-index state and JSX layout are not
  modelled. So are the roadmap's alternating layout and the results page's `savePriority`, which
  only logs.
- `Math.round` on floating point is modelled as exact round-half-up on rationals.
- `toLowerCase` folds ASCII letters only. String comparison in `sort()` uses character codes as
  `char` values, not UTF-16 code units.
- Progress.SortByDimension: requires every dimension id to contain a digit. An id without one
  makes the comparator return NaN, and the resulting order is engine-defined.
- Progress.SortBy: an insertion sort stands for `Array.prototype.sort`; it does not claim
  stability or the engine's particular order of equal keys.
- The results page sorts the topics by id, and its first-column label is built with `"D"` and a
  slice; both are display only and not modelled.
- The routes' `catch` blocks (status 500 with `err.message`) are not modelled, except
  `typeof null === "object"` in the update route. There, `null` fields make `Object.entries`
  throw, and the model gives `ServerError`.
- AdminUpdateOld: titles, details and capability-level names are strings in the model. A
  non-string value has no `length` and passes the check in the source; a missing one throws.
- Lengths are counted as `|s|`, the number of Unicode scalar values. JavaScript's `.length`
  counts UTF-16 code units, so a character outside the Basic Multilingual Plane counts once in
  the model and twice in the source. Twenty-six emoji, say, pass the 50-character limit of the
  credential validator in the model but not in the source; the same holds for the limits of both
  admin update routes.
- The save-answers route also writes `updated_at: new Date()` with the answers. The clock is not
  modelled, and `SaveAnswers.Write` carries no timestamp.
- AdminUpdate: values are strings, numbers, booleans or null. Arrays and nested objects in
  `changes` are not modelled.
- The recommendations page's `completeStep(4)` on mount is `Steps2Hook.UserStepsProgress.CompleteStep`
  for the user "jaakko"; the page itself is not modelled as a class.
- The `typeof answers === "string"` branch of the recommendations and old profile pages parses
  JSON; the model takes the already parsed records.
- Conversation.ConversationState.LoadFile: requires a non-empty question list. With an empty one
  the source reads `qs[0].id` of `undefined` and throws.
- The questionnaire log is modelled by value. The source's shallow copies share entry objects
  between the old and the new array, which is invisible because the old array is discarded.
- DimensionsHook.DimensionsProgress.FetchTotal: the topic fetch is its row count, or `None` on
  error.
- The sign-in and sign-up pages and routes, middleware, the logout and save-priority routes,
  the remaining display components and static configuration are outside the modelled core.
