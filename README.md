# A verified model of the study assistant's text core

The application lets a student upload a PDF and then study it with an AI model.
This project models, in Dafny, the parts of its backend that compute rather than
store or call out:

- **`chunkText`** (`backend/utils/textChunker.js`). It cleans the extracted text,
  cuts it into paragraphs, gathers the paragraphs into chunks of about `chunkSize`
  words, and cuts an oversized paragraph into word windows overlapping by `overlap`
  words. It numbers every chunk in emission order.
- **`findRelevantChunks`** (same file). It scores each stored chunk against a
  question by keyword matching, drops the chunks that match nothing, sorts the rest
  with a three-key comparator, and keeps the best `maxChunks`.
- **The reply parsers of `generateFlashcards` and `generateQuiz`**
  (`backend/utils/geminiService.js`). They read the model's text reply as blocks
  separated by `---`, one `Q:`/`A:`/`O…`/`E:`/`D:` field per line, and keep the
  complete records.
- **The chunk context** that `chatWithContent` and `explainConcept` put in front
  of the model.
- **`submitQuiz` and `getQuizResults`** (`backend/controllers/quiz.controllers.js`).
  These grade the submitted answers, store them with a percentage score, mark the
  quiz completed, and list one result row per question.

Files:

- `wrappers.dfy`: `Option` and `Result`.
- `js_strings.dfy` (`JsStrings`): the JavaScript string built-ins the code calls,
  with ECMAScript semantics. These are `\s` and `trim`, `split` on `/\s+/`, `/\n+/`
  and a literal, `join`, the index clamping of `slice` and `substring`, ASCII
  `toLowerCase`, `indexOf`/`includes`, the match counts of `match(/w/g)` and
  `match(/\bw\b/g)`, and decimal rendering.
- `chunker.dfy` (`Chunker`): `chunkText`. The class `ChunkWriter` holds the
  `chunks` array and the `chunkIndex` counter that the `pushChunk` closure bumps.
  Its methods are the window loop, one paragraph step, and the paragraph loop.
  Each method is proved against specification functions: `Windows`, `FoldStep`,
  `FoldAll` and `ChunkContents`.
- `ranker.dfy` (`Ranker`): `findRelevantChunks`. The methods `ScoreChunk`,
  `ScoreChunks` and `FindRelevantChunks` are proved equal to the functions
  `ScoreOf`, `ScoreAll` and `Relevant`. The lemmas are about those functions.
- `response_parsing.dfy` (`ResponseParsing`): the two nested parsing loops are
  methods proved equal to left folds (`Cards`, `Questions`). Each field of a record
  is proved equal to an independent definition: the value of the last line with
  its prefix (`Field`, `LevelOf`, `OptionLines`).
- `quiz_grading.dfy` (`QuizGrading`): the class `Quiz` with its `Submit` method
  and `Results` function. Grading is proved against `GradeOf`, and result rows are
  related back to the submitted answers.

Behaviour the proofs bring out, all modelled as the code is written:

- **`chunkText` never sees more than one paragraph.** The `/\s+/g → ' '`
  replacement on line 18 also replaces newlines, so the newline handling on lines
  19-20 has nothing left to do. The `/\n+/` split then yields at most one
  paragraph. Non-blank text therefore always produces chunks, so the fallback on
  lines 80-88 never runs (`CleanCollapsed`, `ParagraphsOfClean`,
  `ChunkContentsOfText`). On any paragraph list, the paragraph fold still behaves
  as follows:
  - a chunk built by flush-and-carry can hold more than `chunkSize` words
    (`CarryExceedsChunkSize`, `CarryExceedsExample`). With `overlap > 0` it holds
    at most `chunkSize + overlap` (`ParagraphChunkWords`);
  - with `overlap = 0`, `slice(-0)` carries the whole previous chunk, so each
    carried buffer holds more words than the chunk before it (`CarryWords`,
    `FlushCarry`).
- **The no-keyword branch of `findRelevantChunks` puts the whole chunk object
  under `pageNumber`** (line 141). `PlainChunk` keeps this.
- **`submitQuiz` counts every answer, even repeated ones.** An answer naming the
  same question twice is counted twice, so the score can exceed 100
  (`DuplicateAnswers`). With distinct answers the score stays within 0..100
  (`DistinctScore`).
- **A negative `questionIndex` passes the `<` check.** Reading `correctAnswer` of
  `questions[-1]`, which is `undefined`, then throws a `TypeError`. The submission
  fails with status 500 and the quiz is left as it was (`NegativeIndex`, `Submit`).
- **An empty `selectedAnswer` shows as `null` in the results**, because of
  `selectedAnswer || null`.
- **Quiz difficulties are not lower-cased.** `D: Hard` gives a flashcard `hard`
  and a quiz question `medium` (`CapitalisedLevel`).

## Model

| member | source | states |
|---|---|---|
| JsStrings.TrimSpec | backend/utils/textChunker.js:10 | `trim()` is empty exactly when the string is all white space. Otherwise it has no white space at either end. A string already without any at its ends is left alone. |
| JsStrings.TrimIsSlice | backend/utils/textChunker.js:21 | Trimming keeps one contiguous piece of the string. |
| JsStrings.NonBlankSpec | backend/utils/geminiService.js:41 | `filter((c) => c.trim())` keeps exactly the pieces that are not blank, and never adds entries. |
| JsStrings.SplitPieces | backend/utils/textChunker.js:40 | No piece of `split(/\s+/)` contains white space. |
| JsStrings.SplitTidy | backend/utils/textChunker.js:40 | A trimmed, non-empty paragraph splits into non-empty words. |
| JsStrings.SplitJoinWords | backend/utils/textChunker.js:63 | Splitting words joined by a space gives the same words back. |
| JsStrings.SplitJoin | backend/utils/textChunker.js:63 | Joining trimmed parts with white space and splitting again gives each part's words, in order. |
| JsStrings.SplitOnPieces | backend/utils/geminiService.js:41 | No piece of `split('---')` contains the separator. |
| JsStrings.JoinSplitOn | backend/utils/geminiService.js:41 | Joining the pieces of `split(sep)` with `sep` restores the text. |
| JsStrings.IndexOf | backend/utils/textChunker.js:163 | The first occurrence at or after the start, or -1 exactly when there is none. |
| JsStrings.CountMatchesPositive | backend/utils/textChunker.js:158 | `match(/w/g)` finds something exactly when `includes(w)` holds. |
| JsStrings.WholeWordsOccur | backend/utils/textChunker.js:154 | A `\bw\b` match is also an occurrence of `w`. |
| JsStrings.SliceWithin | backend/utils/textChunker.js:52 | For 0 <= a <= b, `slice(a, b)` keeps the elements from a up to b, both cut off at the length. |
| JsStrings.SliceFromEnd | backend/utils/textChunker.js:64 | `slice(-n)` keeps the last min(n, length) elements, and `slice(-0)` keeps them all. |
| JsStrings.ToLower | backend/utils/textChunker.js:132 | `toLowerCase()` keeps the length and lowers each character. |
| JsStrings.NatToStringDecimal | backend/utils/geminiService.js:182 | `${i}` is a non-empty digit string without a leading zero, and its value is `i`. |
| Chunker.NumberedContents | backend/utils/textChunker.js:29-37 | Numbering keeps the contents in their order and gives chunk k `chunkIndex` k and `pageNumber` 0. |
| Chunker.NumberingIsNumbered | backend/utils/textChunker.js:29-37 | A chunk list numbered this way is determined by its contents. |
| Chunker.CleanCollapsed | backend/utils/textChunker.js:16-21 | The cleaned text is the trimmed whitespace-collapsed text, and it holds no newline. |
| Chunker.CleanNonEmpty | backend/utils/textChunker.js:10-21 | Text that is not blank cleans to a non-empty string. |
| Chunker.ParagraphsOfClean | backend/utils/textChunker.js:24 | The cleaned text is one paragraph, or none when it is empty. |
| Chunker.ChunkContentsEmpty | backend/utils/textChunker.js:9-91 | `chunkText` returns no chunk exactly when the text is blank. |
| Chunker.ChunkContentsOfText | backend/utils/textChunker.js:9-91 | Non-blank text gives its cleaned paragraph whole when it has at most `chunkSize` words, and its word windows otherwise. The fallback never runs. |
| Chunker.ChunkWordCounts | backend/utils/textChunker.js:9-91 | Every chunk of a text has between 1 and `chunkSize` words. |
| Chunker.ChunkWordsCover | backend/utils/textChunker.js:9-91 | The chunks cover the cleaned words in order: the first chunk's words, then the words each later chunk adds past the overlap. |
| Chunker.WindowsSize | backend/utils/textChunker.js:51-56 | Every window is non-empty and has at most `chunkSize` words. |
| Chunker.WindowAt | backend/utils/textChunker.js:51-56 | Window k starts k steps of `chunkSize - overlap` in and holds the next `chunkSize` words, or the rest. Every window but the last leaves words after it. |
| Chunker.WindowStart | backend/utils/textChunker.js:51-56 | Window k starts at word k·(chunkSize − overlap). |
| Chunker.WindowsLast | backend/utils/textChunker.js:51-56 | There is no window exactly when there are no words, and the last window ends at the last word. |
| Chunker.WindowsOverlap | backend/utils/textChunker.js:51-56 | Consecutive windows share exactly `overlap` words. |
| Chunker.WindowsCover | backend/utils/textChunker.js:51-56 | With the overlaps removed, the windows are exactly the words, in order. |
| Chunker.WindowWords | backend/utils/textChunker.js:52-53 | A window joined with a single space splits back into the same words. |
| Chunker.CarryWords | backend/utils/textChunker.js:63-64 | The overlap text holds the last min(overlap, n) of the n buffered words. With overlap 0 it holds all of them. |
| Chunker.FoldAllCount | backend/utils/textChunker.js:59-71 | `currentWordCount` stays within 0..chunkSize + overlap, and is 0 whenever the buffer is empty. |
| Chunker.FoldAllTidy | backend/utils/textChunker.js:39-71 | With non-blank paragraphs, every buffered entry (a trimmed paragraph or a carried overlap) is non-empty with no white space at either end. |
| Chunker.FlushCarry | backend/utils/textChunker.js:59-67 | A flush-and-carry emits the buffer joined by blank lines. The new buffer's words are the flushed chunk's last min(overlap, n) words, all n when overlap is 0, then the paragraph's words. `currentWordCount` becomes overlap plus the paragraph's word count. With overlap 0 the new buffer holds more words than the chunk just flushed. |
| Chunker.FoldAllWords | backend/utils/textChunker.js:39-72 | With overlap > 0 and non-blank paragraphs, the buffer holds at most `currentWordCount` words and every chunk emitted so far at most chunkSize + overlap. |
| Chunker.ParagraphChunkWords | backend/utils/textChunker.js:39-77 | With overlap > 0, every chunk of the paragraph loop and the final flush holds at most chunkSize + overlap words. |
| Chunker.CarryExceedsChunkSize | backend/utils/textChunker.js:59-67 | With chunkSize 2 and overlap 1, two two-word paragraphs "u v" and "x y" give the chunks "u v" and "v\n\nx y", and the second holds three words. |
| Chunker.CarryExceedsExample | backend/utils/textChunker.js:59-67 | The instance "a b", "c d" gives the chunks "a b" and "b\n\nc d", a chunk of 3 words for chunkSize 2. |
| Chunker.FoldAllPrefix | backend/utils/textChunker.js:39-72 | Each paragraph only appends chunks. |
| Chunker.ChunkWriter.PushChunk | backend/utils/textChunker.js:31-37 | Appends the joined words as the next numbered chunk on page 0. |
| Chunker.ChunkWriter.PushWindows | backend/utils/textChunker.js:51-56 | The `for`/`break` loop appends exactly the word windows, each joined with a space, and keeps the numbering. |
| Chunker.ChunkWriter.AddParagraph | backend/utils/textChunker.js:40-71 | One paragraph step. It covers the three branches: oversized (flush, then windows), flush-and-carry, and append. It updates the chunks, `currentChunk` and `currentWordCount` as `FoldStep` does. |
| Chunker.ChunkWriter.AddParagraphs | backend/utils/textChunker.js:39-77 | The paragraph loop and the final flush append `ParagraphChunks` for any paragraph list. |
| Chunker.ChunkText | backend/utils/textChunker.js:9-91 | The chunks' contents are `ChunkContents`, in order. Chunk k has `chunkIndex` k and `pageNumber` 0. The result is `[]` exactly when the text is blank. |
| Ranker.KeepTermsSpec | backend/utils/textChunker.js:134 | The filter keeps exactly the words longer than two characters that are not stop words. |
| Ranker.QueryWordsSpec | backend/utils/textChunker.js:131-134 | The query words are exactly the terms among the lower-cased query's words. |
| Ranker.TermScorePositive | backend/utils/textChunker.js:152-160 | A query word adds to the score exactly when it occurs in the content. |
| Ranker.TermsScorePositive | backend/utils/textChunker.js:152-166 | The summed word scores are positive exactly when some query word matched. |
| Ranker.MatchedSpec | backend/utils/textChunker.js:163 | `uniqueWords` is at most the number of query words. It is positive exactly when one of them occurs. |
| Ranker.PositionBonusRange | backend/utils/textChunker.js:172 | The position bonus lies in (0.9, 1]. |
| Ranker.ScoreSquaredPositive | backend/utils/textChunker.js:169-180 | The final score is positive exactly when the raw score is. |
| Ranker.ScoreOfPositive | backend/utils/textChunker.js:146-184 | For each chunk these go together: a positive score, a positive raw score, a matched word, and a query word found in the lower-cased content. |
| Ranker.BeforeStrict | backend/utils/textChunker.js:188-196 | No chunk sorts before itself, and of two chunks at most one sorts before the other. |
| Ranker.NotBeforeTrans | backend/utils/textChunker.js:188-196 | "Not before" is transitive. Together with `BeforeStrict`, the comparator is a strict weak order. |
| Ranker.SortSpec | backend/utils/textChunker.js:188-196 | The sort returns an ordered permutation of its input. |
| Ranker.KeptSpec | backend/utils/textChunker.js:187 | The filter keeps exactly the records with a positive score or raw score. |
| Ranker.ScoreAllAgreeing | backend/utils/textChunker.js:146-184 | No scored chunk has one positive measure without the others. |
| Ranker.KeptMatching | backend/utils/textChunker.js:187 | The filter keeps exactly the records that matched a query word. |
| Ranker.RankingEmpty | backend/utils/textChunker.js:186-196 | The ranking is empty exactly when no chunk matched. |
| Ranker.SortedMatching | backend/utils/textChunker.js:186-196 | The sorted list is an ordered permutation of exactly the matching records. |
| Ranker.RankingSpec | backend/utils/textChunker.js:186-197 | The result is ordered, is the first `maxChunks` of that list, and every entry matched. |
| Ranker.RelevantEmpty | backend/utils/textChunker.js:101-198 | For positive `maxChunks`, the result is empty exactly when there are no chunks, or the query is empty, or the query has usable words and no chunk's lower-cased content contains one. A non-empty query with no usable word is not in this list: it returns the first chunks. |
| Ranker.RelevantNoTerms | backend/utils/textChunker.js:137-144 | With no usable query word, the result is the first min(maxChunks, n) chunks, in input order. |
| Ranker.RelevantRanking | backend/utils/textChunker.js:146-197 | With usable query words, the result is that ranking of the scored chunks. |
| Ranker.RelevantPrefix | backend/utils/textChunker.js:186-197 | The result for k is a prefix of the result for k + 1. |
| Ranker.ScoreChunk | backend/utils/textChunker.js:146-184 | The map callback's loop over the query words and its bonus compute `ScoreOf`. |
| Ranker.ScoreChunks | backend/utils/textChunker.js:146-184 | The `map` scores every chunk, in order. |
| Ranker.FindRelevantChunks | backend/utils/textChunker.js:101-198 | The whole function computes `Relevant`, including the early returns. |
| ResponseParsing.KeptRecords | backend/utils/geminiService.js:43-66 | Each pushed record is the one read from a kept block, and it is complete. There are never more records than blocks. |
| ResponseParsing.KeptOrder | backend/utils/geminiService.js:43-66 | Records keep block order. A block yields a record exactly when the record read from it is complete. |
| ResponseParsing.LastWhereSpec | backend/utils/geminiService.js:49-61 | The index of the last line with a property is -1 exactly when no line has it. Otherwise that line has it and no later line does. |
| ResponseParsing.FieldStep | backend/utils/geminiService.js:51-54 | A last line with the prefix sets the field. Any other line leaves it. |
| ResponseParsing.LevelOfLevels | backend/utils/geminiService.js:45-59 | The difficulty read from the lines is always easy, medium or hard. |
| ResponseParsing.FoldField | backend/utils/geminiService.js:49-54 | A field that only its own prefix lines change ends as the trimmed text after the prefix on its last such line, or `''`. |
| ResponseParsing.FoldLevel | backend/utils/geminiService.js:55-59 | A difficulty that only whitelisted `D:` lines change ends as the last such level, or `medium`. |
| ResponseParsing.FoldOptions | backend/utils/geminiService.js:121-122 | The options are the values of all `O` lines, in order. |
| ResponseParsing.CardLineStep | backend/utils/geminiService.js:49-61 | A line changes a card field only when it has that field's prefix. |
| ResponseParsing.CardFieldsSpec | backend/utils/geminiService.js:44-61 | A card's question and answer come from the last `Q:`/`A:` line. Its difficulty is the last lower-cased whitelisted `D:` value, else `medium`. |
| ResponseParsing.CardLevel | backend/utils/geminiService.js:45-59 | A card's difficulty is always a level. |
| ResponseParsing.CardsComplete | backend/utils/geminiService.js:63-65 | Every card has a question, an answer and a level. |
| ResponseParsing.FlashcardsSpec | backend/utils/geminiService.js:40-67 | The result is the first min(count, n) cards, each complete with a level. The blocks are exactly the non-blank pieces between `---`. |
| ResponseParsing.QuizLineStep | backend/utils/geminiService.js:117-133 | A line changes a question field only when it has that field's prefix. The `O` test comes before `A:`, `E:` and `D:`. |
| ResponseParsing.QuizFieldsSpec | backend/utils/geminiService.js:110-133 | Options are all `O` values, in order. Question, answer and explanation come from the last line with their prefix. The difficulty is the last whitelisted `D:` value, not lower-cased, else `medium`. |
| ResponseParsing.QuizLevel | backend/utils/geminiService.js:127-131 | A question's difficulty is always a level. |
| ResponseParsing.QuestionsComplete | backend/utils/geminiService.js:135-137 | Every question has a question, a correct answer, exactly four options and a level. |
| ResponseParsing.CapitalisedLevel | backend/utils/geminiService.js:127-131 | `D: Hard` gives a flashcard `hard` but leaves a quiz question `medium`. |
| ResponseParsing.ParseFlashcards | backend/utils/geminiService.js:40-67 | The nested loops compute `Flashcards(generatedText, count)`. |
| ResponseParsing.ParseQuiz | backend/utils/geminiService.js:106-140 | The nested loops compute `Quiz(generatedText)`, which is not cut to the number of questions asked for. |
| ResponseParsing.Labels | backend/utils/geminiService.js:182 | There is one labelled entry per chunk. |
| ResponseParsing.ChatContextAppend | backend/utils/geminiService.js:182 | The context is `[Chunk i]\n` + content for i = 1..n in order, joined by a blank line. |
| ResponseParsing.ExplainContextPrefix | backend/utils/geminiService.js:223 | The explanation context is the first 10000 characters of that context, or all of it when shorter. |
| ResponseParsing.LabelledInjective | backend/utils/geminiService.js:217 | Equal labelled entries have the same number and content. |
| QuizGrading.GradedSpec | backend/controllers/quiz.controllers.js:88-104 | Each answer naming a question yields exactly one entry, in input order. No other answer yields one. |
| QuizGrading.InRangeMembers | backend/controllers/quiz.controllers.js:91 | An answer is kept exactly when its index names a question. |
| QuizGrading.CountCorrectSpec | backend/controllers/quiz.controllers.js:93-95 | `correctCount` is at most the number of entries. It equals that number exactly when all are correct, and is 0 exactly when none is. |
| QuizGrading.Grade | backend/controllers/quiz.controllers.js:85-104 | The `forEach` computes the entries and the count, or fails with a `TypeError` on a negative index. |
| QuizGrading.NamedMembers | backend/controllers/quiz.controllers.js:88-104 | A graded question exists and one of the answers names it. |
| QuizGrading.DistinctEntries | backend/controllers/quiz.controllers.js:88-104 | With no question named twice, there is one entry per named question. |
| QuizGrading.DistinctScore | backend/controllers/quiz.controllers.js:85-106 | With distinct answers and a total equal to the number of questions, the score is 0..100. |
| QuizGrading.RoundPercentSpec | backend/controllers/quiz.controllers.js:106 | The score is the nearest whole number to 100·correct/total, halves rounded up. It is 0..100 when correct ≤ total, 0 with no correct answer, and 100 when all are correct. |
| QuizGrading.FindSpec | backend/controllers/quiz.controllers.js:156 | `find` gives the first entry with the index, and `undefined` exactly when none has it. |
| QuizGrading.FirstNamingSpec | backend/controllers/quiz.controllers.js:156 | The first answer naming a question, or -1 exactly when none does. |
| QuizGrading.GradedFind | backend/controllers/quiz.controllers.js:88-104 | After grading, the entry found for a question is the one graded from the first answer naming it. |
| QuizGrading.RowsSpec | backend/controllers/quiz.controllers.js:155-167 | One row per question, in order, numbered by position, with the question's fields. A question nobody answered gets `null`/`false`. |
| QuizGrading.GradedRows | backend/controllers/quiz.controllers.js:155-167 | A row is correct exactly when the first answer for its question was right. It shows an answer exactly when that answer is not empty. |
| QuizGrading.Quiz.Submit | backend/controllers/quiz.controllers.js:51-127 | A non-array body, a completed quiz and a `TypeError` each leave the quiz as it was. Otherwise the entries and the rounded score are stored, the quiz is completed, and the submission is returned. |
| QuizGrading.Quiz.Results | backend/controllers/quiz.controllers.js:147-167 | Refused exactly when the quiz is not completed. Otherwise one row per question, as `Rows` gives them. |
| QuizGrading.SubmitTwice | backend/controllers/quiz.controllers.js:77-83 | After a submit that succeeds, a second submit is refused, and the results are available. |
| QuizGrading.DuplicateAnswers | backend/controllers/quiz.controllers.js:88-106 | One question answered correctly twice scores 200. |
| QuizGrading.NegativeIndex | backend/controllers/quiz.controllers.js:91-93 | A negative index fails the whole submission with a `TypeError`, even after answers that graded. |

## Left out

- **External services and I/O.** The Gemini SDK calls, the prompts sent to them, and the `try`/`catch` that rethrows their errors call the network. The model starts from the reply text.
- **Persistence and HTTP.** The Mongoose queries and `quiz.save()` are DB access, and the 404 for a quiz that is not found is a lookup in it. The JSON envelopes are HTTP plumbing. A refusal is modelled as a `Result` error with its status (`Status`) and message.
- **Mongoose's answer schema.** The quiz schema names the stored field `questionsIndex`, not `questionIndex`. The effect on `save()` and on the results lookup is schema validation, which is not modelled.
- **Dates.** `answeredAt` and `completedAt` are timestamps. Only whether `completedAt` is set is modelled.
- **`_id` fields.** These are database identifiers, carried neither by chunks nor by results.
- **`chunkText` with `overlap >= chunkSize`.** The window loop then never ends, so this case is a precondition.
- **Floating point.** `Ranker.ScoreOf` keeps twice the raw score as an integer. It represents `score` by its exact square, raw²/words·bonus², which orders the chunks as `score` does because both are non-negative. IEEE rounding of `Math.sqrt` and the bonus is not modelled.
  - One consequence: two chunks whose float scores differ only by rounding can come out in a different order than the model gives.
- **`QuizGrading.RoundPercent`** computes `Math.round` on the exact rational 100·correct/total. A float quotient that rounds across a .5 boundary is not modelled. For total = 0 the model returns `NaN` (0/0) or `Infinity`, as JavaScript gives them.
- **Regular-expression metacharacters in query words.** `new RegExp(word)` is built unescaped. The model treats every word as a literal, and `\b` is taken over ASCII word characters.
- **Unicode.** `toLowerCase` lowers ASCII letters only, and strings are sequences of code points rather than UTF-16 units.
- **The error handler.** `next(error)` passes a thrown error to an error handler that is not part of this model. The 500 that `Status` gives a `TypeError` is Express's default.
- **Other values for `questionIndex`.** A fraction, a string or a missing index is not modelled. Indices are integers.
- **Type checks beyond the array test.** `chunks`/`query` values that are not arrays or strings are not modelled. An empty query string stands for a falsy one.
- **Stability of JavaScript's sort.** `Sort` is a stable insertion sort. The comparator breaks ties by `chunkIndex`, so stability only matters between chunks with equal indices.
- **`count` from `parseInt`.** The flashcard route passes `parseInt(count)`, which can be `NaN`, and `slice(0, NaN)` returns `[]`. `count` is an integer in the model, so the `NaN` case is not modelled.
- **Chunker.ParagraphChunks**: for a list of several paragraphs, the model proves the word relation of each flush-and-carry (`FlushCarry`) and the word bound (`ParagraphChunkWords`). It has no whole-list lemma that the chunks cover the paragraphs' words in order. `chunkText` itself only ever folds one paragraph, and for it `ChunkWordsCover` states that coverage.
- **Ranker.RankingSpec** bounds the result by `maxChunks` only for `maxChunks >= 0`. A negative `maxChunks` is modelled by `Slice`, as `slice(0, -k)` drops the last k entries.
