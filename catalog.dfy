/**
 * The fixed content of the three exercises: five quiz questions, five
 * flashcards and three fill-in-the-blank sentences, in display order.
 */
module Catalog {
  import opened Text

  /** One multiple-choice question; `answerIndex` points into `options`. */
  datatype QuizQuestion = QuizQuestion(id: int, question: string, options: seq<string>, answerIndex: int, expl: string)

  /** One card: the term on the front, its explanation on the back. */
  datatype Flashcard = Flashcard(front: string, back: string)

  /** One sentence with a blank (a run of `____`) and the expected word. */
  datatype FillBlank = FillBlank(id: string, sentence: string, answer: string)

  const QuizQuestions: seq<QuizQuestion> := [
    QuizQuestion(
      1,
      "What does LLM stand for, and what is its core job?",
      [
        "Large Language Model; to translate text to multiple languages",
        "Large Language Model; to predict the next token in a sequence",
        "Large Linear Model; to store training data",
        "Long Linguistic Memory; to recall past conversations"
      ],
      1,
      "An LLM is trained to predict the next token. Chaining predictions yields coherent text/code."),
    QuizQuestion(
      2,
      "In LLMs, what are tokens?",
      [
        "Cryptographic keys used for security",
        "Small chunks of text (e.g., 'dog', 'un', 'able') that the model processes",
        "Training parameters in the neural network",
        "Special commands that trigger API calls"
      ],
      1,
      "Models operate on tokens\U{2014}subword units or words\U{2014}rather than raw strings."),
    QuizQuestion(
      3,
      "What is the attention mechanism in transformers?",
      [
        "A way for the model to focus on the most relevant parts of the input sequence",
        "A memory system that stores all past interactions permanently",
        "A GPU optimization to speed up training",
        "A process to remove hallucinations"
      ],
      0,
      "Attention scores relationships among tokens, letting the model focus contextually."),
    QuizQuestion(
      4,
      "Which of the following is a weakness of LLMs?",
      [
        "They are always up-to-date with new information",
        "They never hallucinate",
        "They have limited memory due to context windows",
        "They cannot generate text"
      ],
      2,
      "Context windows bound how much text a model can consider at once."),
    QuizQuestion(
      5,
      "Why do techniques like RAG or MCP exist if LLMs are powerful on their own?",
      [
        "To make them slower and more secure",
        "To extend them with external knowledge and tools, addressing cutoff & hallucinations",
        "To reduce their number of tokens",
        "To stop them from predicting the next token"
      ],
      1,
      "RAG provides fresh knowledge; MCP provides safe tool access\U{2014}both augment core LLMs.")
  ]

  const Flashcards: seq<Flashcard> := [
    Flashcard("LLM (what it does)", "Predicts the next token; transformer + attention enable contextual generation."),
    Flashcard("Token", "A chunk of text (word/subword). Models operate over sequences of tokens."),
    Flashcard("Attention", "Scores relevance between tokens so the model focuses on important context."),
    Flashcard("Context Window", "The max number of tokens the model can consider at once."),
    Flashcard("RAG vs MCP", "RAG = knowledge grounding. MCP = tool/action standardization. Complementary.")
  ]

  /**
   * Each sentence is written as a concatenation of literals, with its run
   * of underscores on its own; the concatenation is the same string as the
   * sentence written in one piece. The verifier can show that a character
   * is absent from a literal only up to about forty characters, so the
   * longest piece is split once more.
   */
  const FillBlanks: seq<FillBlank> := [
    FillBlank("fb1", "An LLM is trained to predict the next " + "____" + " in a sequence.", "token"),
    FillBlank("fb2", "Transformers rely on the " + "________" + " mechanism to focus on relevant context.", "attention"),
    FillBlank("fb3", "The " + "________" + (" window limits how much text" + " the model can consider at once."), "context")
  ]

  /** `qs.map(q => q.id)` as a set: the keys of the quiz's selection record. */
  function QuestionIds(qs: seq<QuizQuestion>): set<int> {
    set i | 0 <= i < |qs| :: qs[i].id
  }

  /** No two questions share an id. */
  predicate UniqueIds(qs: seq<QuizQuestion>) {
    forall i, j :: 0 <= i < j < |qs| ==> qs[i].id != qs[j].id
  }

  /** With distinct ids the record has exactly one key per question. */
  lemma {:induction false} QuestionIdsCount(qs: seq<QuizQuestion>)
    requires UniqueIds(qs)
    ensures |QuestionIds(qs)| == |qs|
  {
    if qs != [] {
      var n := |qs| - 1;
      var prefix := qs[..n];
      assert forall i :: 0 <= i < n ==> prefix[i] == qs[i];
      QuestionIdsCount(prefix);
      var before, now := QuestionIds(prefix), QuestionIds(qs);
      forall id | id in now ensures id in before + {qs[n].id} {
        var i :| 0 <= i < |qs| && qs[i].id == id;
        if i < n {
          assert prefix[i].id == id;
        }
      }
      assert now == before + {qs[n].id};
      assert qs[n].id !in before;
    }
  }

  /** The five questions have the ids 1 to 5, in order. */
  lemma QuizQuestionIds()
    ensures |QuizQuestions| == 5
    ensures forall i :: 0 <= i < |QuizQuestions| ==> QuizQuestions[i].id == i + 1
  {
    assert QuizQuestions[0].id == 1 && QuizQuestions[1].id == 2 && QuizQuestions[2].id == 3;
    assert QuizQuestions[3].id == 4 && QuizQuestions[4].id == 5;
  }

  /** The question ids are distinct, and the record's keys are 1 to 5. */
  lemma QuizQuestionKeys()
    ensures UniqueIds(QuizQuestions)
    ensures QuestionIds(QuizQuestions) == {1, 2, 3, 4, 5}
  {
    QuizQuestionIds();
    var ids := QuestionIds(QuizQuestions);
    assert QuizQuestions[0].id in ids && QuizQuestions[1].id in ids && QuizQuestions[2].id in ids;
    assert QuizQuestions[3].id in ids && QuizQuestions[4].id in ids;
  }

  /** Every question's `answerIndex` names one of its options, and every question offers at least two. */
  lemma AnswerIndicesInRange()
    ensures forall i :: 0 <= i < |QuizQuestions| ==>
      2 <= |QuizQuestions[i].options| && 0 <= QuizQuestions[i].answerIndex < |QuizQuestions[i].options|
  {
    assert |QuizQuestions[0].options| == 4 && QuizQuestions[0].answerIndex == 1;
    assert |QuizQuestions[1].options| == 4 && QuizQuestions[1].answerIndex == 1;
    assert |QuizQuestions[2].options| == 4 && QuizQuestions[2].answerIndex == 0;
    assert |QuizQuestions[3].options| == 4 && QuizQuestions[3].answerIndex == 2;
    assert |QuizQuestions[4].options| == 4 && QuizQuestions[4].answerIndex == 1;
  }

  /** No two blanks share an id, so each sentence has its own entry in the typed values. */
  lemma BlankIdsUnique()
    ensures forall i, j :: 0 <= i < j < |FillBlanks| ==> FillBlanks[i].id != FillBlanks[j].id
  {
    forall i, j | 0 <= i < j < |FillBlanks| ensures FillBlanks[i].id != FillBlanks[j].id {
      assert i == 0 || i == 1;
      assert j == 1 || j == 2;
    }
  }

  /**
   * Every expected answer is already normalised and non-empty: typing it
   * exactly scores, and an empty or missing entry never does.
   */
  lemma AnswersNormalized()
    ensures forall i :: 0 <= i < |FillBlanks| ==> FillBlanks[i].answer != "" && IsNormalized(FillBlanks[i].answer)
  {
    forall i | 0 <= i < |FillBlanks| ensures FillBlanks[i].answer != "" && IsNormalized(FillBlanks[i].answer) {
      assert i == 0 || i == 1 || i == 2;
    }
  }
}
