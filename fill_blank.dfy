/**
 * The fill-in-the-blank exercise: a record from blank id to the text typed
 * so far, a checked flag, the count of blanks whose normalised entry equals
 * the expected answer, and the layout of each sentence around its blanks.
 */
module FillBlankExercise {
  import opened Text
  import Catalog
  import Folds

  /** The typed values: blank id to the text in its input; blanks never typed into are absent. */
  type Values = map<string, string>

  /** `values[id] || ""`: what the input shows and what is scored, the empty string when nothing was typed. */
  function Entry(values: Values, id: string): string {
    if id in values then values[id] else ""
  }

  /** The learner's entry, normalised, is the expected answer; the answer itself is not normalised. */
  predicate IsBlankCorrect(f: Catalog.FillBlank, values: Values) {
    Normalize(Entry(values, f.id)) == f.answer
  }

  /** The test the count's fold applies to each blank. */
  function BlankTest(values: Values): Catalog.FillBlank -> bool {
    f => IsBlankCorrect(f, values)
  }

  /**
   * `correctCount` over the blanks `fs`: 0 until the answers are checked,
   * then the fold counting the blanks filled in correctly.
   */
  function CorrectCount(fs: seq<Catalog.FillBlank>, values: Values, checked: bool): (r: nat)
    ensures r <= |fs|
    ensures !checked ==> r == 0
  {
    if checked then Folds.CountIf(fs, BlankTest(values)) else 0
  }

  /** Once checked, the count is the number of blanks filled in correctly. */
  lemma CorrectCountCounts(fs: seq<Catalog.FillBlank>, values: Values)
    ensures CorrectCount(fs, values, true) == |set i: nat | i < |fs| && IsBlankCorrect(fs[i], values)|
  {
    Folds.CountIfIsPassing(fs, BlankTest(values));
    assert Folds.Passing(fs, BlankTest(values)) == set i: nat | i < |fs| && IsBlankCorrect(fs[i], values);
  }

  /** Once checked, the count is full exactly when every blank is filled in correctly. */
  lemma CorrectCountFull(fs: seq<Catalog.FillBlank>, values: Values)
    ensures CorrectCount(fs, values, true) == |fs| <==> forall i :: 0 <= i < |fs| ==> IsBlankCorrect(fs[i], values)
  {
    Folds.CountIfAll(fs, BlankTest(values));
  }

  /** The count is 0 exactly when the answers are unchecked or no blank is filled in correctly. */
  lemma CorrectCountZero(fs: seq<Catalog.FillBlank>, values: Values, checked: bool)
    ensures CorrectCount(fs, values, checked) == 0
      <==> !checked || forall i :: 0 <= i < |fs| ==> !IsBlankCorrect(fs[i], values)
  {
    Folds.CountIfNone(fs, BlankTest(values));
  }

  /** A blank never typed into counts as the empty string, which no non-empty answer equals. */
  lemma MissingIsWrong(f: Catalog.FillBlank, values: Values)
    requires f.id !in values && f.answer != ""
    ensures !IsBlankCorrect(f, values)
  {
    assert Trim("") == "";
  }

  /**
   * Only the learner's side is normalised: against a normalised answer
   * this is the same as comparing both sides normalised, and an answer that
   * is not normalised can never be matched.
   */
  lemma LearnerSideNormalized(f: Catalog.FillBlank, values: Values)
    ensures IsNormalized(f.answer) ==>
      (IsBlankCorrect(f, values) <==> Normalize(Entry(values, f.id)) == Normalize(f.answer))
    ensures !IsNormalized(f.answer) ==> !IsBlankCorrect(f, values)
  {
    NormalizeFixedPoints(f.answer);
  }

  /** Surrounding spaces and capitals do not matter: `"  Token "` fills the first blank, `"Tokens"` does not. */
  lemma TokenExample()
    ensures IsBlankCorrect(Catalog.FillBlanks[0], map["fb1" := "  Token "])
    ensures !IsBlankCorrect(Catalog.FillBlanks[0], map["fb1" := "Tokens"])
  {
    NormalizeExamples();
    assert Catalog.FillBlanks[0].id == "fb1" && Catalog.FillBlanks[0].answer == "token";
  }

  /** With nothing typed, no blank is correct, whether or not the answers have been checked. */
  lemma NothingTypedScoresZero(fs: seq<Catalog.FillBlank>, checked: bool)
    requires forall i :: 0 <= i < |fs| ==> fs[i].answer != ""
    ensures CorrectCount(fs, map[], checked) == 0
  {
    forall i | 0 <= i < |fs| ensures !IsBlankCorrect(fs[i], map[]) {
      MissingIsWrong(fs[i], map[]);
    }
    CorrectCountZero(fs, map[], checked);
  }

  // ---------- Sentence layout ----------

  /** The marker the sentence is split on; a longer run of underscores holds several. */
  const Marker: string := "____"

  /** What a sentence renders as: its text pieces, with an input box between any two. */
  datatype Piece = Words(text: string) | InputBox(shown: string)

  /** The pieces for `parts`, each but the last followed by an input showing `shown`. */
  function Interleave(parts: seq<string>, shown: string): (pieces: seq<Piece>)
    requires |parts| >= 1
    ensures |pieces| == 2 * |parts| - 1
    ensures forall i :: 0 <= i < |parts| ==> pieces[2 * i] == Words(parts[i])
    ensures forall i :: 0 <= i < |parts| - 1 ==> pieces[2 * i + 1] == InputBox(shown)
  {
    if |parts| == 1 then [Words(parts[0])]
    else
      var rest := Interleave(parts[1..], shown);
      var pieces := [Words(parts[0]), InputBox(shown)] + rest;
      assert forall i :: 1 <= i < |parts| ==> pieces[2 * i] == rest[2 * (i - 1)];
      forall i | 1 <= i < |parts| - 1 ensures pieces[2 * i + 1] == InputBox(shown) {
        var j := i - 1;
        assert pieces[2 * i + 1] == rest[2 * j + 1];
      }
      pieces
  }

  /** The number of input boxes a sentence renders. */
  function InputCount(sentence: string): nat {
    |Split(sentence, Marker)| - 1
  }

  /**
   * The sentence split on the marker, with one input after every piece but
   * the last; every input of the sentence shows the same entry.
   */
  function Layout(sentence: string, shown: string): (pieces: seq<Piece>)
    ensures |pieces| == 2 * InputCount(sentence) + 1
    ensures forall k :: 0 <= k <= InputCount(sentence) ==> pieces[2 * k] == Words(Split(sentence, Marker)[k])
    ensures forall k :: 0 <= k < InputCount(sentence) ==> pieces[2 * k + 1] == InputBox(shown)
  {
    Interleave(Split(sentence, Marker), shown)
  }

  /** A single four-underscore blank: two pieces, so one input. */
  lemma SingleMarker(a: string, c: string)
    requires '_' !in a && '_' !in c
    ensures Split(a + Marker + c, Marker) == [a, c]
  {
    SplitAtFirst(a, Marker, c);
    SplitWithoutFirst(c, Marker);
  }

  /** A run of eight underscores is two markers: three pieces, the middle one empty, so two inputs. */
  lemma DoubleMarker(a: string, c: string)
    requires '_' !in a && '_' !in c
    ensures Split(a + "________" + c, Marker) == [a, "", c]
  {
    assert "________" == Marker + Marker;
    assert a + "________" + c == a + Marker + (Marker + c);
    SplitAtFirst(a, Marker, Marker + c);
    assert Marker + c == "" + Marker + c;
    SplitAtFirst("", Marker, c);
    SplitWithoutFirst(c, Marker);
  }

  /** The first sentence has one blank and so one input. */
  lemma FirstSentenceLayout()
    ensures Split(Catalog.FillBlanks[0].sentence, Marker)
      == ["An LLM is trained to predict the next ", " in a sequence."]
    ensures InputCount(Catalog.FillBlanks[0].sentence) == 1
  {
    SingleMarker("An LLM is trained to predict the next ", " in a sequence.");
  }

  /** The second sentence's eight underscores give two inputs around an empty piece. */
  lemma SecondSentenceLayout()
    ensures Split(Catalog.FillBlanks[1].sentence, Marker)
      == ["Transformers rely on the ", "", " mechanism to focus on relevant context."]
    ensures InputCount(Catalog.FillBlanks[1].sentence) == 2
  {
    var a, c := "Transformers rely on the ", " mechanism to focus on relevant context.";
    DoubleMarker(a, c);
  }

  /** The third sentence's eight underscores give two inputs around an empty piece. */
  lemma ThirdSentenceLayout()
    ensures Split(Catalog.FillBlanks[2].sentence, Marker)
      == ["The ", "", " window limits how much text" + " the model can consider at once."]
    ensures InputCount(Catalog.FillBlanks[2].sentence) == 2
  {
    DoubleMarker("The ", " window limits how much text" + " the model can consider at once.");
  }

  // ---------- The fill-in-the-blank component's state ----------

  class FillInTheBlank {
    var values: Values
    var checked: bool

    constructor ()
      ensures values == map[] && !checked
    {
      values := map[];
      checked := false;
    }

    /** Typing into blank `id` (through any of its inputs) replaces that entry and nothing else. */
    method Type(id: string, text: string)
      modifies this
      ensures values == old(values)[id := text] && checked == old(checked)
      ensures Entry(values, id) == text
      ensures forall other :: other != id ==> Entry(values, other) == Entry(old(values), other)
    {
      values := values[id := text];
    }

    /** The reset button: all entries gone, unchecked, and the count back to 0. */
    method Reset()
      modifies this
      ensures values == map[] && !checked
      ensures forall c :: CorrectCount(Catalog.FillBlanks, values, c) == 0
    {
      values := map[];
      checked := false;
      Catalog.AnswersNormalized();
      NothingTypedScoresZero(Catalog.FillBlanks, true);
    }

    /** Checking the answers reveals the count of correct blanks; the entries stay as typed. */
    method Check()
      modifies this
      ensures checked && values == old(values)
      ensures CorrectCount(Catalog.FillBlanks, values, checked)
        == |set i: nat | i < |Catalog.FillBlanks| && IsBlankCorrect(Catalog.FillBlanks[i], values)|
    {
      checked := true;
      CorrectCountCounts(Catalog.FillBlanks, values);
    }
  }
}
