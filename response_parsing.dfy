/**
 * The parsers `generateFlashcards` and `generateQuiz` run over the model's reply,
 * and the context text `chatWithContent` and `explainConcept` put in front of the
 * model. A reply is a list of blocks separated by `---`, one field per line, each
 * line starting with a short prefix such as `Q:`.
 */
module ResponseParsing {
  import opened JsStrings

  /** The default of the `count` parameter of `generateFlashcards`. */
  const DefaultCount := 10

  /** The length `explainConcept` cuts its context to. */
  const ExplainLimit := 10000

  /** `['easy', 'medium', 'hard']`. */
  const Levels: set<string> := {"easy", "medium", "hard"}

  /** `generatedText.split('---').filter((c) => c.trim())`. */
  function Blocks(generatedText: string): seq<string> {
    NonBlank(SplitOn(generatedText, "---"))
  }

  /** `block.trim().split('\n')`. */
  function Lines(block: string): seq<string> {
    SplitOn(Trim(block), "\n")
  }

  /** `line.substring(n).trim()`: the text after a prefix of n characters. */
  function Value(line: string, n: nat): string {
    Trim(SubstringFrom(line, n))
  }

  /** A string that starts with a non-empty prefix starts with its first character. */
  lemma StartsWithHead(l: string, p: string)
    ensures StartsWith(l, p) && |p| > 0 ==> |l| > 0 && l[0] == p[0]
  {
    if StartsWith(l, p) && |p| > 0 {
      assert l[..|p|][0] == l[0];
    }
  }

  // ---------------------------------------------------------------------------
  // the blocks of a reply

  /** The records the outer loop of a parser pushes: the fields read from each
      block, in order, keeping those that are complete. */
  function Parsed<R>(blocks: seq<string>, fields: string -> R, complete: R -> bool): seq<R>
    decreases |blocks|
  {
    if |blocks| == 0 then []
    else
      var x := fields(blocks[|blocks| - 1]);
      Parsed(blocks[..|blocks| - 1], fields, complete) + (if complete(x) then [x] else [])
  }

  /** The positions of the blocks whose record is complete, in order. */
  function Kept<R>(blocks: seq<string>, fields: string -> R, complete: R -> bool): seq<nat>
    decreases |blocks|
  {
    if |blocks| == 0 then []
    else
      var n := |blocks| - 1;
      Kept(blocks[..n], fields, complete) + (if complete(fields(blocks[n])) then [n] else [])
  }

  /** The records are those of the kept blocks, each read from its block, all complete. */
  lemma {:induction false} KeptRecords<R>(blocks: seq<string>, fields: string -> R, complete: R -> bool)
    ensures var r, idx := Parsed(blocks, fields, complete), Kept(blocks, fields, complete);
      && |idx| == |r| <= |blocks|
      && forall k :: 0 <= k < |idx| ==> idx[k] < |blocks| && r[k] == fields(blocks[idx[k]]) && complete(r[k])
    decreases |blocks|
  {
    if |blocks| > 0 {
      var n := |blocks| - 1;
      KeptRecords(blocks[..n], fields, complete);
      assert forall b :: 0 <= b < n ==> blocks[..n][b] == blocks[b];
    }
  }

  /** The kept blocks are listed in block order, and they are exactly the blocks
      whose record is complete. */
  lemma {:induction false} KeptOrder<R>(blocks: seq<string>, fields: string -> R, complete: R -> bool)
    ensures var idx := Kept(blocks, fields, complete);
      && (forall k :: 0 <= k < |idx| ==> idx[k] < |blocks|)
      && (forall i, j :: 0 <= i < j < |idx| ==> idx[i] < idx[j])
      && forall b :: 0 <= b < |blocks| ==> (b in idx <==> complete(fields(blocks[b])))
    decreases |blocks|
  {
    if |blocks| > 0 {
      var n := |blocks| - 1;
      KeptOrder(blocks[..n], fields, complete);
      assert forall b :: 0 <= b < n ==> blocks[..n][b] == blocks[b];
    }
  }

  // ---------------------------------------------------------------------------
  // a field read from the lines of a block

  /** The index of the last line that satisfies `p`, or -1 when none does. */
  function LastWhere(lines: seq<string>, p: string -> bool): (r: int)
    ensures -1 <= r < |lines|
    decreases |lines|
  {
    if |lines| == 0 then -1
    else if p(lines[|lines| - 1]) then |lines| - 1
    else LastWhere(lines[..|lines| - 1], p)
  }

  /** `LastWhere` is -1 exactly when no line satisfies `p`, and otherwise a line that
      does with none after it that does. */
  lemma {:induction false} LastWhereSpec(lines: seq<string>, p: string -> bool)
    ensures var r := LastWhere(lines, p);
      && (r == -1 <==> forall i :: 0 <= i < |lines| ==> !p(lines[i]))
      && (0 <= r ==> p(lines[r]))
      && (0 <= r ==> forall j :: r < j < |lines| ==> !p(lines[j]))
    decreases |lines|
  {
    if |lines| > 0 {
      var init := lines[..|lines| - 1];
      LastWhereSpec(init, p);
      assert forall i :: 0 <= i < |init| ==> init[i] == lines[i];
    }
  }

  /** A line that, once trimmed, starts with the prefix. */
  predicate Heads(line: string, prefix: string) {
    StartsWith(Trim(line), prefix)
  }

  /** The field read from the lines for a prefix: the value of the last line that
      starts with it once trimmed, or `''` when no line does. */
  function Field(lines: seq<string>, prefix: string): string {
    var r := LastWhere(lines, (line: string) => Heads(line, prefix));
    if r < 0 then "" else Value(Trim(lines[r]), |prefix|)
  }

  /** A last line that starts with the prefix sets the field; any other leaves it. */
  lemma FieldStep(lines: seq<string>, prefix: string)
    requires |lines| > 0
    ensures var l := Trim(lines[|lines| - 1]);
      Field(lines, prefix)
        == if StartsWith(l, prefix) then Value(l, |prefix|) else Field(lines[..|lines| - 1], prefix)
  {
    var r := LastWhere(lines[..|lines| - 1], (line: string) => Heads(line, prefix));
    if 0 <= r {
      assert lines[..|lines| - 1][r] == lines[r];
    }
  }

  /** The value a `D:` line gives, lower-cased for flashcards and as written for quizzes. */
  function Level(line: string, lower: bool): string {
    var diff := Value(Trim(line), 2);
    if lower then ToLower(diff) else diff
  }

  /** A line that changes the difficulty: a `D:` line whose value is a level. */
  predicate SetsLevel(line: string, lower: bool) {
    StartsWith(Trim(line), "D:") && Level(line, lower) in Levels
  }

  /** The difficulty read from the lines: the level of the last line that gives one,
      or `medium` when none does. */
  function LevelOf(lines: seq<string>, lower: bool): string {
    var r := LastWhere(lines, (line: string) => SetsLevel(line, lower));
    if r < 0 then "medium" else Level(lines[r], lower)
  }

  /** A last line that sets a level gives the difficulty; any other leaves it. */
  lemma LevelStep(lines: seq<string>, lower: bool)
    requires |lines| > 0
    ensures var line := lines[|lines| - 1];
      LevelOf(lines, lower)
        == if SetsLevel(line, lower) then Level(line, lower) else LevelOf(lines[..|lines| - 1], lower)
  {
    var r := LastWhere(lines[..|lines| - 1], (line: string) => SetsLevel(line, lower));
    if 0 <= r {
      assert lines[..|lines| - 1][r] == lines[r];
    }
  }

  /** The difficulty is always one of the levels. */
  lemma LevelOfLevels(lines: seq<string>, lower: bool)
    ensures LevelOf(lines, lower) in Levels
  {
    LastWhereSpec(lines, (line: string) => SetsLevel(line, lower));
  }

  /** The record after the inner loop of a parser: each line, in order, updates the
      record with `step`, from `start`. */
  function Fold<R>(lines: seq<string>, start: R, step: (R, string) -> R): R
    decreases |lines|
  {
    if |lines| == 0 then start
    else step(Fold(lines[..|lines| - 1], start, step), lines[|lines| - 1])
  }

  /** A field that starts as `''` and that only lines with its prefix set ends as
      the value of the last such line. */
  lemma {:induction false} FoldField<R>(lines: seq<string>, start: R, step: (R, string) -> R,
                                        get: R -> string, prefix: string)
    requires get(start) == ""
    requires forall x: R, line: string :: (get(step(x, line))
      == if StartsWith(Trim(line), prefix) then Value(Trim(line), |prefix|) else get(x))
    ensures get(Fold(lines, start, step)) == Field(lines, prefix)
    decreases |lines|
  {
    if |lines| > 0 {
      FoldField(lines[..|lines| - 1], start, step, get, prefix);
      FieldStep(lines, prefix);
    }
  }

  /** A difficulty that starts as `medium` and that only the lines setting a level
      change ends as the level of the last such line. */
  lemma {:induction false} FoldLevel<R>(lines: seq<string>, start: R, step: (R, string) -> R,
                                        get: R -> string, lower: bool)
    requires get(start) == "medium"
    requires forall x: R, line: string :: (get(step(x, line))
      == if SetsLevel(line, lower) then Level(line, lower) else get(x))
    ensures get(Fold(lines, start, step)) == LevelOf(lines, lower)
    decreases |lines|
  {
    if |lines| > 0 {
      FoldLevel(lines[..|lines| - 1], start, step, get, lower);
      LevelStep(lines, lower);
    }
  }

  // ---------------------------------------------------------------------------
  // flashcards

  datatype Flashcard = Flashcard(question: string, answer: string, difficulty: string)

  /** One iteration of the inner loop of `generateFlashcards`. */
  function CardLine(card: Flashcard, line: string): Flashcard {
    var l := Trim(line);
    if StartsWith(l, "Q:") then card.(question := Value(l, 2))
    else if StartsWith(l, "A:") then card.(answer := Value(l, 2))
    else if StartsWith(l, "D:") then
      var diff := ToLower(Value(l, 2));
      if diff in Levels then card.(difficulty := diff) else card
    else card
  }

  /** The fields after the lines of a block, from `''`, `''` and `'medium'`. */
  function CardFields(lines: seq<string>): Flashcard {
    Fold(lines, Flashcard("", "", "medium"), CardLine)
  }

  /** The fields read from one block. */
  function Card(block: string): Flashcard {
    CardFields(Lines(block))
  }

  /** `if (question && answer)`. */
  predicate CardComplete(c: Flashcard) {
    c.question != "" && c.answer != ""
  }

  /** The cards the outer loop pushes: one per block whose question and answer are set. */
  function Cards(blocks: seq<string>): seq<Flashcard> {
    Parsed(blocks, Card, CardComplete)
  }

  /** What `generateFlashcards` returns for the reply: `flashcards.slice(0, count)`. */
  function Flashcards(generatedText: string, count: int): seq<Flashcard> {
    Slice(Cards(Blocks(generatedText)), 0, count)
  }

  /** A line changes a field of a card only when it starts with that field's prefix. */
  lemma CardLineStep(card: Flashcard, line: string)
    ensures var r, l := CardLine(card, line), Trim(line);
      && r.question == (if StartsWith(l, "Q:") then Value(l, 2) else card.question)
      && r.answer == (if StartsWith(l, "A:") then Value(l, 2) else card.answer)
      && r.difficulty == (if SetsLevel(line, true) then Level(line, true) else card.difficulty)
  {
    var l := Trim(line);
    StartsWithHead(l, "Q:");
    StartsWithHead(l, "A:");
    StartsWithHead(l, "D:");
  }

  /** Each field of a card is read from its lines: the question and the answer from
      the last `Q:` and `A:` line, the difficulty from the last `D:` line whose
      lower-cased value is a level, else `medium`. */
  lemma CardFieldsSpec(lines: seq<string>)
    ensures var c := CardFields(lines);
      && c.question == Field(lines, "Q:")
      && c.answer == Field(lines, "A:")
      && c.difficulty == LevelOf(lines, true)
  {
    var start := Flashcard("", "", "medium");
    forall x: Flashcard, line: string {
      CardLineStep(x, line);
    }
    FoldField(lines, start, CardLine, (c: Flashcard) => c.question, "Q:");
    FoldField(lines, start, CardLine, (c: Flashcard) => c.answer, "A:");
    FoldLevel(lines, start, CardLine, (c: Flashcard) => c.difficulty, true);
  }


  /** The difficulty of a card is always one of the levels. */
  lemma CardLevel(lines: seq<string>)
    ensures CardFields(lines).difficulty in Levels
  {
    CardFieldsSpec(lines);
    LevelOfLevels(lines, true);
  }


  /** Every card has a question, an answer and a level, and comes from its own block. */
  lemma CardsComplete(blocks: seq<string>)
    ensures forall k :: 0 <= k < |Cards(blocks)| ==>
      CardComplete(Cards(blocks)[k]) && Cards(blocks)[k].difficulty in Levels
    ensures |Cards(blocks)| <= |blocks|
  {
    var idx := Kept(blocks, Card, CardComplete);
    KeptRecords(blocks, Card, CardComplete);
    forall k | 0 <= k < |idx|
      ensures Cards(blocks)[k].difficulty in Levels
    {
      CardLevel(Lines(blocks[idx[k]]));
    }
  }

  /** At most `count` cards are returned, the first ones, complete and with a level;
      the blocks they come from are the non-blank pieces between the separators. */
  lemma FlashcardsSpec(generatedText: string, count: int)
    ensures var all := Cards(Blocks(generatedText));
      var r := Flashcards(generatedText, count);
      && (0 <= count ==> r == all[..if count < |all| then count else |all|])
      && |r| <= |Blocks(generatedText)|
      && (forall k :: 0 <= k < |r| ==> CardComplete(r[k]) && r[k].difficulty in Levels)
      && forall b :: b in Blocks(generatedText) <==> b in SplitOn(generatedText, "---") && Trim(b) != ""
  {
    var all := Cards(Blocks(generatedText));
    CardsComplete(Blocks(generatedText));
    NonBlankSpec(SplitOn(generatedText, "---"));
    var r := Flashcards(generatedText, count);
    assert forall k :: 0 <= k < |r| ==> r[k] == all[k];
  }

  // ---------------------------------------------------------------------------
  // quiz questions

  datatype QuizQuestion = QuizQuestion(question: string, options: seq<string>,
                                       correctAnswer: string, explanation: string, difficulty: string)

  /** One iteration of the inner loop of `generateQuiz`: any line starting with `O`
      is an option, and that test comes before the `A:`, `E:` and `D:` tests. */
  function QuizLine(q: QuizQuestion, line: string): QuizQuestion {
    var l := Trim(line);
    if StartsWith(l, "Q:") then q.(question := Value(l, 2))
    else if StartsWith(l, "O") then q.(options := q.options + [Value(l, 3)])
    else if StartsWith(l, "A:") then q.(correctAnswer := Value(l, 2))
    else if StartsWith(l, "E:") then q.(explanation := Value(l, 2))
    else if StartsWith(l, "D:") then
      var diff := Value(l, 2);
      if diff in Levels then q.(difficulty := diff) else q
    else q
  }

  function QuizFields(lines: seq<string>): QuizQuestion {
    Fold(lines, QuizQuestion("", [], "", "", "medium"), QuizLine)
  }

  /** The fields read from one block. */
  function Question(block: string): QuizQuestion {
    QuizFields(Lines(block))
  }

  /** `if (question && correctAnswer && options.length === 4)`. */
  predicate QuestionComplete(q: QuizQuestion) {
    q.question != "" && q.correctAnswer != "" && |q.options| == 4
  }

  function Questions(blocks: seq<string>): seq<QuizQuestion> {
    Parsed(blocks, Question, QuestionComplete)
  }

  /** What `generateQuiz` returns for the reply; the list is not cut to the number
      of questions asked for. */
  function Quiz(generatedText: string): seq<QuizQuestion> {
    Questions(Blocks(generatedText))
  }

  /** The values of the lines that start with `O`, in order. */
  function OptionLines(lines: seq<string>): seq<string>
    decreases |lines|
  {
    if |lines| == 0 then []
    else
      var l := Trim(lines[|lines| - 1]);
      OptionLines(lines[..|lines| - 1]) + (if StartsWith(l, "O") then [Value(l, 3)] else [])
  }

  /** A list that starts empty and that each `O` line extends ends as the values
      of the `O` lines, in order. */
  lemma {:induction false} FoldOptions<R>(lines: seq<string>, start: R, step: (R, string) -> R,
                                          get: R -> seq<string>)
    requires get(start) == []
    requires forall x: R, line: string :: (get(step(x, line))
      == get(x) + if StartsWith(Trim(line), "O") then [Value(Trim(line), 3)] else [])
    ensures get(Fold(lines, start, step)) == OptionLines(lines)
    decreases |lines|
  {
    if |lines| > 0 {
      FoldOptions(lines[..|lines| - 1], start, step, get);
    }
  }

  /** A line changes a field of a question only when it starts with that field's prefix. */
  lemma QuizLineStep(q: QuizQuestion, line: string)
    ensures var r, l := QuizLine(q, line), Trim(line);
      && r.question == (if StartsWith(l, "Q:") then Value(l, 2) else q.question)
      && r.options == q.options + (if StartsWith(l, "O") then [Value(l, 3)] else [])
      && r.correctAnswer == (if StartsWith(l, "A:") then Value(l, 2) else q.correctAnswer)
      && r.explanation == (if StartsWith(l, "E:") then Value(l, 2) else q.explanation)
      && r.difficulty == (if SetsLevel(line, false) then Level(line, false) else q.difficulty)
  {
    var l := Trim(line);
    StartsWithHead(l, "Q:");
    StartsWithHead(l, "O");
    StartsWithHead(l, "A:");
    StartsWithHead(l, "E:");
    StartsWithHead(l, "D:");
  }

  /** Each field of a question is read from its lines: the options are the values of
      all `O` lines in order; question, correct answer and explanation come from the
      last `Q:`, `A:` and `E:` line; the difficulty from the last `D:` line whose
      value, not lower-cased, is a level, else `medium`. */
  lemma QuizFieldsSpec(lines: seq<string>)
    ensures var q := QuizFields(lines);
      && q.options == OptionLines(lines)
      && q.question == Field(lines, "Q:")
      && q.correctAnswer == Field(lines, "A:")
      && q.explanation == Field(lines, "E:")
      && q.difficulty == LevelOf(lines, false)
  {
    var start := QuizQuestion("", [], "", "", "medium");
    forall x: QuizQuestion, line: string {
      QuizLineStep(x, line);
    }
    FoldOptions(lines, start, QuizLine, (q: QuizQuestion) => q.options);
    FoldField(lines, start, QuizLine, (q: QuizQuestion) => q.question, "Q:");
    FoldField(lines, start, QuizLine, (q: QuizQuestion) => q.correctAnswer, "A:");
    FoldField(lines, start, QuizLine, (q: QuizQuestion) => q.explanation, "E:");
    FoldLevel(lines, start, QuizLine, (q: QuizQuestion) => q.difficulty, false);
  }


  lemma QuizLevel(lines: seq<string>)
    ensures QuizFields(lines).difficulty in Levels
  {
    QuizFieldsSpec(lines);
    LevelOfLevels(lines, false);
  }


  /** Every question of a quiz has a question, a correct answer, four options and a level. */
  lemma QuestionsComplete(blocks: seq<string>)
    ensures forall k :: 0 <= k < |Questions(blocks)| ==>
      QuestionComplete(Questions(blocks)[k]) && Questions(blocks)[k].difficulty in Levels
    ensures |Questions(blocks)| <= |blocks|
  {
    var idx := Kept(blocks, Question, QuestionComplete);
    KeptRecords(blocks, Question, QuestionComplete);
    forall k | 0 <= k < |idx|
      ensures Questions(blocks)[k].difficulty in Levels
    {
      QuizLevel(Lines(blocks[idx[k]]));
    }
  }

  /** A `D:` value that is a level only up to case is lower-cased for a flashcard
      and ignored for a quiz question: `D: Hard` gives `hard` and leaves `medium`. */
  lemma CapitalisedLevel()
    ensures CardFields(["D: Hard"]).difficulty == "hard"
    ensures QuizFields(["D: Hard"]).difficulty == "medium"
  {
    var l := "D: Hard";
    HardValue();
    assert [l][..0] == [];
    CardLineStep(CardFields([]), l);
    QuizLineStep(QuizFields([]), l);
    assert StartsWith(l, "D:");
    LowerHard();
  }

  lemma LowerHard()
    ensures ToLower("Hard") == "hard" && "Hard" !in Levels
  {
    var r := ToLower("Hard");
    assert LowerChar('H') == 'h';
    assert r[0] == 'h' && r[1] == 'a' && r[2] == 'r' && r[3] == 'd';
    assert "Hard"[0] != "hard"[0] && "Hard"[0] != "easy"[0] && "Hard"[0] != "medium"[0];
  }

  lemma HardValue()
    ensures Trim("D: Hard") == "D: Hard" && Value("D: Hard", 2) == "Hard"
  {
    assert Tidy("D: Hard", Space);
    TrimSpec("D: Hard");
    assert SubstringFrom("D: Hard", 2) == " Hard";
    assert IsSpace(" Hard"[0]) && " Hard"[1..] == "Hard";
    assert TrimStart(" Hard") == TrimStart("Hard");
    assert Tidy("Hard", Space);
    TrimSpec("Hard");
  }

  // ---------------------------------------------------------------------------
  // the parsing loops

  /** The parsing loops of `generateFlashcards` over the reply `generatedText`. */
  method ParseFlashcards(generatedText: string, count: int := DefaultCount) returns (r: seq<Flashcard>)
    ensures r == Flashcards(generatedText, count)
  {
    var flashcards: seq<Flashcard> := [];
    var cards := Blocks(generatedText);
    for n := 0 to |cards|
      invariant flashcards == Cards(cards[..n])
    {
      var lines := Lines(cards[n]);
      var question, answer, difficulty := "", "", "medium";
      for m := 0 to |lines|
        invariant Flashcard(question, answer, difficulty) == CardFields(lines[..m])
      {
        var line := Trim(lines[m]);
        if StartsWith(line, "Q:") {
          question := Value(line, 2);
        } else if StartsWith(line, "A:") {
          answer := Value(line, 2);
        } else if StartsWith(line, "D:") {
          var diff := ToLower(Value(line, 2));
          if diff in Levels {
            difficulty := diff;
          }
        }
        assert lines[..m + 1][..m] == lines[..m];
      }
      assert lines[..|lines|] == lines;
      if question != "" && answer != "" {
        flashcards := flashcards + [Flashcard(question, answer, difficulty)];
      }
      assert cards[..n + 1][..n] == cards[..n];
    }
    assert cards[..|cards|] == cards;
    r := Slice(flashcards, 0, count);
  }

  /** The parsing loops of `generateQuiz` over the reply `generatedText`. */
  method ParseQuiz(generatedText: string) returns (questions: seq<QuizQuestion>)
    ensures questions == Quiz(generatedText)
  {
    questions := [];
    var questionBlocks := Blocks(generatedText);
    for n := 0 to |questionBlocks|
      invariant questions == Questions(questionBlocks[..n])
    {
      var lines := Lines(questionBlocks[n]);
      var question, options, correctAnswer, explanation, difficulty := "", [], "", "", "medium";
      for m := 0 to |lines|
        invariant QuizQuestion(question, options, correctAnswer, explanation, difficulty)
          == QuizFields(lines[..m])
      {
        var line := Trim(lines[m]);
        if StartsWith(line, "Q:") {
          question := Value(line, 2);
        } else if StartsWith(line, "O") {
          options := options + [Value(line, 3)];
        } else if StartsWith(line, "A:") {
          correctAnswer := Value(line, 2);
        } else if StartsWith(line, "E:") {
          explanation := Value(line, 2);
        } else if StartsWith(line, "D:") {
          var diff := Value(line, 2);
          if diff in Levels {
            difficulty := diff;
          }
        }
        assert lines[..m + 1][..m] == lines[..m];
      }
      assert lines[..|lines|] == lines;
      if question != "" && correctAnswer != "" && |options| == 4 {
        questions := questions + [QuizQuestion(question, options, correctAnswer, explanation, difficulty)];
      }
      assert questionBlocks[..n + 1][..n] == questionBlocks[..n];
    }
    assert questionBlocks[..|questionBlocks|] == questionBlocks;
  }

  // ---------------------------------------------------------------------------
  // the context of a chat or an explanation

  /** `[Chunk ${i}]\n${content}`. */
  function Labelled(i: nat, content: string): string {
    "[Chunk " + NatToString(i) + "]\n" + content
  }

  /** `chunks.map((c, i) => ...)` over the chunk contents. */
  function Labels(contents: seq<string>): (r: seq<string>)
    ensures |r| == |contents|
  {
    seq(|contents|, k requires 0 <= k < |contents| => Labelled(k + 1, contents[k]))
  }

  /** The context of `chatWithContent`: the labelled contents joined by a blank line. */
  function ChatContext(contents: seq<string>): string {
    Join(Labels(contents), "\n\n")
  }

  /** The context of `explainConcept`: `context.substring(0, 10000)`. */
  function ExplainContext(contents: seq<string>): string {
    Substring(ChatContext(contents), 0, ExplainLimit)
  }

  /** The context grows by one labelled entry per chunk, numbered from 1 in order. */
  lemma ChatContextAppend(contents: seq<string>, c: string)
    ensures ChatContext([]) == ""
    ensures ChatContext([c]) == Labelled(1, c)
    ensures |contents| > 0 ==>
      ChatContext(contents + [c]) == ChatContext(contents) + "\n\n" + Labelled(|contents| + 1, c)
  {
    assert Labels([c]) == [Labelled(1, c)];
    if |contents| > 0 {
      assert Labels(contents + [c]) == Labels(contents) + [Labelled(|contents| + 1, c)];
      JoinAppend(Labels(contents), Labelled(|contents| + 1, c), "\n\n");
    }
  }

  /** The explanation context is the first 10000 characters of the chat context,
      all of it when it is shorter. */
  lemma ExplainContextPrefix(contents: seq<string>)
    ensures var ctx := ChatContext(contents);
      ExplainContext(contents) == ctx[..if |ctx| < ExplainLimit then |ctx| else ExplainLimit]
  {
  }

  /** A string without `]` ends where the first `]` is. */
  lemma BracketSplit(a: string, x: string, b: string, y: string)
    requires forall k :: 0 <= k < |a| ==> a[k] != ']'
    requires forall k :: 0 <= k < |b| ==> b[k] != ']'
    requires a + "]" + x == b + "]" + y
    ensures a == b && x == y
  {
    var s := a + "]" + x;
    assert forall k :: 0 <= k < |a| ==> s[k] == a[k];
    assert forall k :: 0 <= k < |b| ==> s[k] == b[k];
    assert s[|a|] == ']' && s[|b|] == ']';
    assert a == s[..|a|] && b == s[..|b|];
    assert x == s[|a| + 1..] && y == s[|b| + 1..];
  }

  /** The label tells which chunk an entry is: equal entries have the same number
      and the same content. */
  lemma LabelledInjective(i: nat, c: string, j: nat, d: string)
    requires Labelled(i, c) == Labelled(j, d)
    ensures i == j && c == d
  {
    var si, sj := NatToString(i), NatToString(j);
    NatToStringDecimal(i);
    NatToStringDecimal(j);
    assert Labelled(i, c)[7..] == si + "]" + ("\n" + c);
    assert Labelled(j, d)[7..] == sj + "]" + ("\n" + d);
    BracketSplit(si, "\n" + c, sj, "\n" + d);
    assert c == ("\n" + c)[1..] && d == ("\n" + d)[1..];
  }
}
