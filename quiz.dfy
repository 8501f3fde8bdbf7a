/**
 * The multiple-choice quiz: a record from question id to the chosen option
 * (or none yet), a submitted flag, the score that counts matches once the
 * quiz is submitted, the per-question verdict, and the answered percentage.
 */
module QuizExercise {
  import opened Wrappers
  import Catalog
  import Folds

  /** The selection record: question id to the chosen option index, `None` while unanswered. */
  type Selection = map<int, Option<int>>

  /**
   * `Object.fromEntries(qs.map(q => [q.id, null]))`: every question present
   * and unanswered, so nothing counts as answered, and with distinct ids the
   * record has one entry per question.
   */
  function InitialSelection(qs: seq<Catalog.QuizQuestion>): (sel: Selection)
    ensures sel.Keys == Catalog.QuestionIds(qs)
    ensures forall id :: id in sel ==> sel[id] == None
    ensures Answered(sel) == {}
    ensures Catalog.UniqueIds(qs) ==> |sel| == |qs|
  {
    var sel := map id | id in Catalog.QuestionIds(qs) :: None;
    assert sel.Keys == Catalog.QuestionIds(qs);
    assert Answered(sel) == {};
    if Catalog.UniqueIds(qs) then
      Catalog.QuestionIdsCount(qs);
      sel
    else
      sel
  }

  // ---------- Verdicts and score ----------

  /** The question is marked correct: the quiz is submitted and its selection is the answer index. */
  predicate IsCorrect(q: Catalog.QuizQuestion, sel: Selection, submitted: bool) {
    submitted && q.id in sel && sel[q.id] == Some(q.answerIndex)
  }

  /** The question is marked for review: the quiz is submitted and its selection is anything else, none included. */
  predicate IsWrong(q: Catalog.QuizQuestion, sel: Selection, submitted: bool) {
    submitted && !(q.id in sel && sel[q.id] == Some(q.answerIndex))
  }

  /** Before submission no question has a verdict; after it, each has exactly one. */
  lemma VerdictExclusive(q: Catalog.QuizQuestion, sel: Selection, submitted: bool)
    ensures !submitted ==> !IsCorrect(q, sel, submitted) && !IsWrong(q, sel, submitted)
    ensures submitted ==> (IsCorrect(q, sel, submitted) <==> !IsWrong(q, sel, submitted))
  {
  }

  /** An unanswered question is never correct, and once the quiz is submitted it is wrong. */
  lemma UnansweredIsWrong(q: Catalog.QuizQuestion, sel: Selection, submitted: bool)
    requires q.id !in sel || sel[q.id] == None
    ensures !IsCorrect(q, sel, submitted)
    ensures submitted ==> IsWrong(q, sel, submitted)
  {
  }

  /** The test the score's fold applies to each question. */
  function CorrectTest(sel: Selection, submitted: bool): Catalog.QuizQuestion -> bool {
    q => IsCorrect(q, sel, submitted)
  }

  /**
   * The quiz score: a left fold over the questions adding one for each that
   * is marked correct. It never exceeds the number of questions and is 0
   * until the quiz is submitted.
   */
  function Score(qs: seq<Catalog.QuizQuestion>, sel: Selection, submitted: bool): (r: nat)
    ensures r <= |qs|
    ensures !submitted ==> r == 0
  {
    Folds.CountIfNone(qs, CorrectTest(sel, submitted));
    Folds.CountIf(qs, CorrectTest(sel, submitted))
  }

  /** The score is the number of questions marked correct. */
  lemma ScoreCountsCorrect(qs: seq<Catalog.QuizQuestion>, sel: Selection, submitted: bool)
    ensures Score(qs, sel, submitted) == |set i: nat | i < |qs| && IsCorrect(qs[i], sel, submitted)|
  {
    Folds.CountIfIsPassing(qs, CorrectTest(sel, submitted));
    assert Folds.Passing(qs, CorrectTest(sel, submitted))
      == set i: nat | i < |qs| && IsCorrect(qs[i], sel, submitted);
  }

  /** The score is full exactly when every question is marked correct. */
  lemma ScoreFull(qs: seq<Catalog.QuizQuestion>, sel: Selection, submitted: bool)
    ensures Score(qs, sel, submitted) == |qs| <==> forall i :: 0 <= i < |qs| ==> IsCorrect(qs[i], sel, submitted)
  {
    Folds.CountIfAll(qs, CorrectTest(sel, submitted));
  }

  /** The score is 0 exactly when no question is marked correct. */
  lemma ScoreZero(qs: seq<Catalog.QuizQuestion>, sel: Selection, submitted: bool)
    ensures Score(qs, sel, submitted) == 0 <==> forall i :: 0 <= i < |qs| ==> !IsCorrect(qs[i], sel, submitted)
  {
    Folds.CountIfNone(qs, CorrectTest(sel, submitted));
  }

  /** Three right answers and two wrong ones, submitted, score three out of five. */
  lemma ScoreThreeOfFive()
    ensures var sel := map[1 := Some(1), 2 := Some(1), 3 := Some(0), 4 := Some(0), 5 := Some(0)];
      Score(Catalog.QuizQuestions, sel, true) == 3
  {
    var sel := map[1 := Some(1), 2 := Some(1), 3 := Some(0), 4 := Some(0), 5 := Some(0)];
    var qs := Catalog.QuizQuestions;
    assert qs[..4][..3] == qs[..3];
    assert qs[..3][..2] == qs[..2];
    assert qs[..2][..1] == qs[..1];
    assert qs[..1][..0] == [];
    var test := CorrectTest(sel, true);
    assert Folds.CountIf(qs[..1], test) == 1;
    assert Folds.CountIf(qs[..2], test) == 2;
    assert Folds.CountIf(qs[..3], test) == 3;
    assert Folds.CountIf(qs[..4], test) == 3;
    assert Folds.CountIf(qs, test) == 3;
  }

  // ---------- Progress ----------

  /**
   * `Math.round(k / n * 100)` on integers: the whole number of percent
   * nearest to `100 * k / n`, halves rounded up.
   */
  function RoundPercent(k: nat, n: nat): (r: nat)
    requires n > 0
    ensures r * (2 * n) <= 200 * k + n < (r + 1) * (2 * n)
  {
    (200 * k + n) / (2 * n)
  }

  /** No answers is 0 percent, all answers 100 percent, and the percentage never passes 100. */
  lemma RoundPercentBounds(k: nat, n: nat)
    requires 0 < n && k <= n
    ensures RoundPercent(k, n) <= 100
    ensures k == 0 ==> RoundPercent(k, n) == 0
    ensures k == n ==> RoundPercent(k, n) == 100
  {
    var r := RoundPercent(k, n);
    if r > 100 {
      MulMonotone(101, r, 2 * n);
    }
    if k == n {
      if r < 100 {
        MulMonotone(r + 1, 100, 2 * n);
      }
    }
  }

  /** With fewer than 200 questions, 100 percent means all and 0 percent means none. */
  lemma RoundPercentStrict(k: nat, n: nat)
    requires 0 < n < 200 && k <= n
    ensures RoundPercent(k, n) == 100 ==> k == n
    ensures RoundPercent(k, n) == 0 ==> k == 0
  {
  }

  /** More answers never give a lower percentage. */
  lemma RoundPercentMonotone(k1: nat, k2: nat, n: nat)
    requires 0 < n && k1 <= k2
    ensures RoundPercent(k1, n) <= RoundPercent(k2, n)
  {
    var r1, r2 := RoundPercent(k1, n), RoundPercent(k2, n);
    if r2 < r1 {
      MulMonotone(r2 + 1, r1, 2 * n);
    }
  }

  lemma MulMonotone(a: int, b: int, c: nat)
    requires a <= b
    ensures a * c <= b * c
  {
  }

  /** The ids whose entry in the record is not null (`Object.values(selected).filter(v => v !== null)`). */
  function Answered(sel: Selection): (ids: set<int>)
    ensures ids <= sel.Keys
    ensures forall id :: id in sel ==> (id in ids <==> sel[id].Some?)
    ensures |ids| <= |sel|
    ensures |ids| == |sel| <==> forall id :: id in sel ==> sel[id].Some?
    ensures ids == {} <==> forall id :: id in sel ==> sel[id] == None
  {
    var ids := set id | id in sel && sel[id].Some?;
    SubsetCard(ids, sel.Keys);
    assert (forall id :: id in sel ==> sel[id].Some?) ==> ids == sel.Keys;
    assert forall id :: id in sel && sel[id] != None ==> id in ids;
    assert (forall id :: id in sel ==> sel[id] == None) ==> ids == {};
    ids
  }

  /** The progress bar: the rounded percentage of the record's entries that are answered, out of `|qs|`. */
  function Progress(qs: seq<Catalog.QuizQuestion>, sel: Selection): (r: nat)
    requires |qs| > 0
    ensures |Answered(sel)| <= |qs| ==> r <= 100
    ensures Answered(sel) == {} ==> r == 0
  {
    var k := |Answered(sel)|;
    if k <= |qs| then
      RoundPercentBounds(k, |qs|);
      RoundPercent(k, |qs|)
    else
      RoundPercent(k, |qs|)
  }

  lemma SubsetCard(a: set<int>, b: set<int>)
    requires a <= b
    ensures |a| <= |b|
    ensures |a| == |b| ==> a == b
  {
    assert b == a + (b - a);
    if |a| == |b| {
      assert |b - a| == 0;
    }
  }

  /** The progress bar stays within 0 to 100 percent. */
  lemma ProgressBounded(qs: seq<Catalog.QuizQuestion>, sel: Selection)
    requires |qs| > 0 && Catalog.UniqueIds(qs) && sel.Keys == Catalog.QuestionIds(qs)
    ensures Progress(qs, sel) <= 100
  {
    Catalog.QuestionIdsCount(qs);
    SubsetCard(Answered(sel), sel.Keys);
    RoundPercentBounds(|Answered(sel)|, |qs|);
  }

  /** With fewer than 200 questions, the progress bar is full exactly when every question is answered. */
  lemma ProgressFull(qs: seq<Catalog.QuizQuestion>, sel: Selection)
    requires 0 < |qs| < 200 && Catalog.UniqueIds(qs) && sel.Keys == Catalog.QuestionIds(qs)
    ensures Progress(qs, sel) == 100 <==> forall id :: id in sel ==> sel[id].Some?
  {
    Catalog.QuestionIdsCount(qs);
    var k, n := |Answered(sel)|, |qs|;
    SubsetCard(Answered(sel), sel.Keys);
    RoundPercentBounds(k, n);
    RoundPercentStrict(k, n);
  }

  /** With fewer than 200 questions, the progress bar is empty exactly when no question is answered. */
  lemma ProgressEmpty(qs: seq<Catalog.QuizQuestion>, sel: Selection)
    requires 0 < |qs| < 200 && Catalog.UniqueIds(qs) && sel.Keys == Catalog.QuestionIds(qs)
    ensures Progress(qs, sel) == 0 <==> forall id :: id in sel ==> sel[id] == None
  {
    Catalog.QuestionIdsCount(qs);
    var k, n := |Answered(sel)|, |qs|;
    SubsetCard(Answered(sel), sel.Keys);
    RoundPercentBounds(k, n);
    RoundPercentStrict(k, n);
  }

  /** The quiz starts at 0 percent, whatever the questions. */
  lemma InitialProgress(qs: seq<Catalog.QuizQuestion>)
    requires |qs| > 0
    ensures Progress(qs, InitialSelection(qs)) == 0
  {
    assert Answered(InitialSelection(qs)) == {};
    RoundPercentBounds(0, |qs|);
  }

  /** Choosing an option never lowers the progress bar. */
  lemma SelectKeepsProgress(qs: seq<Catalog.QuizQuestion>, sel: Selection, id: int, option: int)
    requires |qs| > 0
    ensures Progress(qs, sel[id := Some(option)]) >= Progress(qs, sel)
  {
    var before, after := Answered(sel), Answered(sel[id := Some(option)]);
    assert before <= after;
    SubsetCard(before, after);
    RoundPercentMonotone(|before|, |after|, |qs|);
  }

  // ---------- The quiz component's state ----------

  class Quiz {
    var selected: Selection
    var submitted: bool

    /** The record keeps exactly one entry per question. */
    ghost predicate Valid()
      reads this
    {
      |Catalog.QuizQuestions| > 0 && selected.Keys == Catalog.QuestionIds(Catalog.QuizQuestions)
    }

    constructor ()
      ensures Valid()
      ensures selected == InitialSelection(Catalog.QuizQuestions) && !submitted
    {
      selected := InitialSelection(Catalog.QuizQuestions);
      submitted := false;
    }

    /** Choosing `option` for question `id` records it and touches nothing else; the progress bar does not go back. */
    method Select(id: int, option: int)
      requires Valid() && id in selected
      modifies this
      ensures Valid()
      ensures selected == old(selected)[id := Some(option)]
      ensures forall other :: other in selected && other != id ==> selected[other] == old(selected)[other]
      ensures submitted == old(submitted)
      ensures Progress(Catalog.QuizQuestions, selected) >= old(Progress(Catalog.QuizQuestions, selected))
    {
      SelectKeepsProgress(Catalog.QuizQuestions, selected, id, option);
      selected := selected[id := Some(option)];
    }

    /** Submitting fixes the verdicts; the selections stay as they are. */
    method Submit()
      requires Valid()
      modifies this
      ensures Valid()
      ensures submitted && selected == old(selected)
    {
      submitted := true;
    }

    /** The reset button reloads the page, which brings the quiz back to its initial state. */
    method Reset()
      modifies this
      ensures Valid()
      ensures selected == InitialSelection(Catalog.QuizQuestions) && !submitted
      ensures Progress(Catalog.QuizQuestions, selected) == 0
      ensures Score(Catalog.QuizQuestions, selected, submitted) == 0
    {
      selected := InitialSelection(Catalog.QuizQuestions);
      submitted := false;
      Catalog.QuizQuestionIds();
      InitialProgress(Catalog.QuizQuestions);
    }
  }

  /**
   * What the page shows for a quiz in any reachable state: a progress bar
   * within 0 to 100 percent that is full exactly when every question is
   * answered, and a score out of the five questions.
   */
  lemma QuizDisplay(quiz: Quiz)
    requires quiz.Valid()
    ensures |Catalog.QuizQuestions| == 5
    ensures Progress(Catalog.QuizQuestions, quiz.selected) <= 100
    ensures Progress(Catalog.QuizQuestions, quiz.selected) == 100
      <==> forall id :: id in quiz.selected ==> quiz.selected[id].Some?
    ensures Score(Catalog.QuizQuestions, quiz.selected, quiz.submitted) <= 5
  {
    Catalog.QuizQuestionIds();
    Catalog.QuizQuestionKeys();
    ProgressBounded(Catalog.QuizQuestions, quiz.selected);
    ProgressFull(Catalog.QuizQuestions, quiz.selected);
  }
}
