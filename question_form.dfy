/** app/admin/questions/page.tsx: the admin's question form, its choice list
    updaters, the checks made before submitting and the body it posts. */
module QuestionForm {
  import opened Db
  import Nickname
  import Questions

  datatype FormChoice = FormChoice(text: string, is_correct: bool)

  datatype Form = Form(
    question_number: int,
    question_text: string,
    question_type: QuestionType,
    image_url: string,
    points: int,
    explanation_text: string,
    explanation_image_url: string,
    choices: seq<FormChoice>)

  const EmptyChoice := FormChoice("", false)

  /** A fresh form for the given question number: four empty incorrect
      choices, 10 points, multiple choice. */
  function Blank(number: int): (f: Form)
    ensures f.question_number == number && f.points == 10 && f.question_type == MultipleChoice
    ensures f.question_text == "" && f.image_url == ""
    ensures f.explanation_text == "" && f.explanation_image_url == ""
    ensures |f.choices| == 4 && forall i :: 0 <= i < 4 ==> f.choices[i] == EmptyChoice
  {
    Form(number, "", MultipleChoice, "", 10, "", "", [EmptyChoice, EmptyChoice, EmptyChoice, EmptyChoice])
  }

  /** The state the page mounts with. */
  const Initial := Blank(1)

  /** At most one choice is marked correct, as a radio group shows it. */
  predicate AtMostOneCorrect(choices: seq<FormChoice>)
  {
    forall i, j :: 0 <= i < |choices| && 0 <= j < |choices| && choices[i].is_correct && choices[j].is_correct ==> i == j
  }

  /** `handleAddChoice`. */
  function AddChoice(choices: seq<FormChoice>): (r: seq<FormChoice>)
    ensures |r| == |choices| + 1 && r[..|choices|] == choices && r[|choices|] == EmptyChoice
  {
    choices + [EmptyChoice]
  }

  /** `handleRemoveChoice`: `filter((_, i) => i !== index)`, which keeps
      everything for an index outside the list. */
  function RemoveChoice(choices: seq<FormChoice>, index: int): (r: seq<FormChoice>)
    ensures 0 <= index < |choices| ==>
      |r| == |choices| - 1 &&
      (forall j :: 0 <= j < index ==> r[j] == choices[j]) &&
      (forall j :: index <= j < |r| ==> r[j] == choices[j + 1])
    ensures !(0 <= index < |choices|) ==> r == choices
  {
    if 0 <= index < |choices| then choices[..index] + choices[index + 1..] else choices
  }

  /** `handleChoiceChange(index, 'text', value)`. */
  function ChangeText(choices: seq<FormChoice>, index: int, text: string): (r: seq<FormChoice>)
    ensures |r| == |choices|
    ensures forall j :: 0 <= j < |r| && j != index ==> r[j] == choices[j]
    ensures 0 <= index < |r| ==> r[index] == choices[index].(text := text)
  {
    seq(|choices|, j requires 0 <= j < |choices| => if j == index then choices[j].(text := text) else choices[j])
  }

  /** `handleChoiceChange(index, 'is_correct', value)`: setting true clears
      every other choice; setting false touches only that one. */
  function ChangeCorrect(choices: seq<FormChoice>, index: int, value: bool): (r: seq<FormChoice>)
    ensures |r| == |choices|
    ensures forall j :: 0 <= j < |r| ==> r[j].text == choices[j].text
    ensures 0 <= index < |r| ==> r[index].is_correct == value
    ensures forall j :: 0 <= j < |r| && j != index ==>
      r[j].is_correct == (if value then false else choices[j].is_correct)
  {
    seq(|choices|, j requires 0 <= j < |choices| =>
      if j == index then choices[j].(is_correct := value)
      else if value then choices[j].(is_correct := false)
      else choices[j])
  }

  /** Every updater keeps at most one correct choice; marking one correct
      leaves exactly that one. */
  lemma UpdatersKeepOneCorrect(choices: seq<FormChoice>, index: int, value: bool, text: string)
    requires AtMostOneCorrect(choices)
    ensures AtMostOneCorrect(AddChoice(choices))
    ensures AtMostOneCorrect(RemoveChoice(choices, index))
    ensures AtMostOneCorrect(ChangeText(choices, index, text))
    ensures AtMostOneCorrect(ChangeCorrect(choices, index, value))
    ensures value && 0 <= index < |choices| ==>
      forall j :: 0 <= j < |choices| ==> (ChangeCorrect(choices, index, value)[j].is_correct <==> j == index)
  {
    var r := RemoveChoice(choices, index);
    if 0 <= index < |choices| {
      forall i, j | 0 <= i < |r| && 0 <= j < |r| && r[i].is_correct && r[j].is_correct
        ensures i == j
      {
        var i' := if i < index then i else i + 1;
        var j' := if j < index then j else j + 1;
        assert choices[i'].is_correct && choices[j'].is_correct;
      }
    }
    var a := AddChoice(choices);
    forall i, j | 0 <= i < |a| && 0 <= j < |a| && a[i].is_correct && a[j].is_correct
      ensures i == j
    {
      assert i < |choices| && j < |choices|;
      assert a[i] == choices[i] && a[j] == choices[j];
    }
  }

  /** A remove control is shown beside each choice only while there are
      more than two. */
  predicate RemoveOffered(choices: seq<FormChoice>)
  {
    |choices| > 2
  }

  /** Through the offered controls the list never drops below two choices. */
  lemma OfferedRemoveKeepsTwo(choices: seq<FormChoice>, index: int)
    requires RemoveOffered(choices)
    ensures |RemoveChoice(choices, index)| >= 2
  {
  }

  /** `s.trim()` is falsy: every character is white space (see
      Nickname.TrimEmptyIffAllSpace). */
  predicate IsBlank(s: string)
  {
    Nickname.AllSpace(s)
  }

  /** `choices.filter(c => c.text.trim())`. */
  function NonBlank(choices: seq<FormChoice>): (r: seq<FormChoice>)
    ensures |r| <= |choices|
    ensures forall c :: c in r <==> c in choices && !IsBlank(c.text)
  {
    if choices == [] then []
    else
      var k := |choices| - 1;
      NonBlank(choices[..k]) + (if IsBlank(choices[k].text) then [] else [choices[k]])
  }

  lemma PrefixKeepsOneCorrect(choices: seq<FormChoice>, k: nat)
    requires k <= |choices| && AtMostOneCorrect(choices)
    ensures AtMostOneCorrect(choices[..k])
  {
    var front := choices[..k];
    forall i, j | 0 <= i < |front| && 0 <= j < |front| && front[i].is_correct && front[j].is_correct
      ensures i == j
    {
      assert choices[i] == front[i] && choices[j] == front[j];
    }
  }

  lemma AppendKeepsOneCorrect(rest: seq<FormChoice>, x: FormChoice)
    requires AtMostOneCorrect(rest)
    requires x.is_correct ==> forall c :: c in rest ==> !c.is_correct
    ensures AtMostOneCorrect(rest + [x])
  {
    var r := rest + [x];
    forall i, j | 0 <= i < |r| && 0 <= j < |r| && r[i].is_correct && r[j].is_correct
      ensures i == j
    {
      if i < |rest| {
        assert r[i] == rest[i] && rest[i] in rest;
      }
      if j < |rest| {
        assert r[j] == rest[j] && rest[j] in rest;
      }
    }
  }

  /** When the last choice is the correct one, none before it is. */
  lemma LastCorrectIsAlone(choices: seq<FormChoice>)
    requires choices != [] && AtMostOneCorrect(choices) && choices[|choices| - 1].is_correct
    ensures forall c :: c in choices[..|choices| - 1] ==> !c.is_correct
  {
    var k := |choices| - 1;
    forall c | c in choices[..k]
      ensures !c.is_correct
    {
      var i :| 0 <= i < k && choices[..k][i] == c;
      assert choices[i] == c;
    }
  }

  /** Filtering keeps the choices' relative order, so at most one correct
      choice stays at most one. */
  lemma {:induction false} NonBlankKeepsOneCorrect(choices: seq<FormChoice>)
    requires AtMostOneCorrect(choices)
    ensures AtMostOneCorrect(NonBlank(choices))
  {
    if choices != [] {
      var k := |choices| - 1;
      var front := choices[..k];
      PrefixKeepsOneCorrect(choices, k);
      NonBlankKeepsOneCorrect(front);
      var rest := NonBlank(front);
      if !IsBlank(choices[k].text) {
        if choices[k].is_correct {
          LastCorrectIsAlone(choices);
          assert forall c :: c in rest ==> c in front;
        }
        AppendKeepsOneCorrect(rest, choices[k]);
      } else {
        assert NonBlank(choices) == rest + [];
      }
    }
  }

  /** Why submit is refused, in the order the checks are made. */
  datatype FormError = QuestionTextMissing | TooFewChoices | NoCorrectChoice

  /** Whether some choice in the list is marked correct (`some(c => c.is_correct)`). */
  predicate AnyCorrect(choices: seq<FormChoice>)
  {
    exists c :: c in choices && c.is_correct
  }

  /** `handleSubmit`'s checks: blank question text, then for multiple choice
      fewer than two non-blank choices, then none of them correct. */
  function Validate(f: Form): (e: Option<FormError>)
    ensures e == Some(QuestionTextMissing) <==> IsBlank(f.question_text)
    ensures e == Some(TooFewChoices) <==>
      !IsBlank(f.question_text) && f.question_type == MultipleChoice && |NonBlank(f.choices)| < 2
    ensures e == Some(NoCorrectChoice) <==>
      !IsBlank(f.question_text) && f.question_type == MultipleChoice && |NonBlank(f.choices)| >= 2 &&
      !AnyCorrect(NonBlank(f.choices))
    ensures e.None? <==>
      !IsBlank(f.question_text) &&
      (f.question_type == MultipleChoice ==> |NonBlank(f.choices)| >= 2 && AnyCorrect(NonBlank(f.choices)))
  {
    if IsBlank(f.question_text) then Some(QuestionTextMissing)
    else if f.question_type == MultipleChoice && |NonBlank(f.choices)| < 2 then Some(TooFewChoices)
    else if f.question_type == MultipleChoice && !AnyCorrect(NonBlank(f.choices)) then Some(NoCorrectChoice)
    else None
  }

  /** A free-text question needs only its question text. */
  lemma FreeTextNeedsOnlyText(f: Form)
    requires f.question_type == FreeText
    ensures Validate(f).None? <==> !IsBlank(f.question_text)
  {
  }

  /** The JSON body as the POST handler reads it: the form's own fields, with
      the non-blank choices for multiple choice and no `choices` key (dropped
      by `JSON.stringify` as undefined) for free text. */
  function Payload(f: Form): (p: Questions.QuestionInput)
    ensures p.question_number == f.question_number && p.question_text == f.question_text
    ensures p.question_type == f.question_type && p.image_url == Some(f.image_url) && p.points == Some(f.points)
    ensures f.question_type == FreeText ==> p.choices.None?
    ensures f.question_type == MultipleChoice ==>
      p.choices.Some? && |p.choices.value| == |NonBlank(f.choices)| &&
      forall i :: 0 <= i < |p.choices.value| ==>
        p.choices.value[i] == Questions.ChoiceInput(NonBlank(f.choices)[i].text, Some(NonBlank(f.choices)[i].is_correct))
  {
    var sent := NonBlank(f.choices);
    Questions.QuestionInput(f.question_number, f.question_text, f.question_type, Some(f.image_url), Some(f.points),
      if f.question_type == MultipleChoice
      then Some(seq(|sent|, i requires 0 <= i < |sent| => Questions.ChoiceInput(sent[i].text, Some(sent[i].is_correct))))
      else None)
  }

  /** A multiple-choice form that passes the checks, built through the
      updaters, is stored as a question with at least two choice rows of
      which exactly one is correct, none of them blank. */
  lemma SubmittedFormStoresOneCorrect(f: Form, id: Id)
    requires Validate(f).None? && f.question_type == MultipleChoice && AtMostOneCorrect(f.choices)
    ensures var p := Payload(f);
      Questions.InsertsChoices(p) &&
      var rows := Questions.ChoiceRows(id, p.choices.value, id + 1);
      |rows| >= 2 &&
      (forall i :: 0 <= i < |rows| ==> !IsBlank(rows[i].choice_text)) &&
      (exists i :: 0 <= i < |rows| && rows[i].is_correct) &&
      (forall i, j :: 0 <= i < |rows| && 0 <= j < |rows| && rows[i].is_correct && rows[j].is_correct ==> i == j)
  {
    var sent := NonBlank(f.choices);
    var p := Payload(f);
    var rows := Questions.ChoiceRows(id, p.choices.value, id + 1);
    NonBlankKeepsOneCorrect(f.choices);
    forall i | 0 <= i < |rows|
      ensures !IsBlank(rows[i].choice_text) && rows[i].is_correct == sent[i].is_correct
    {
      assert sent[i] in sent;
    }
    var c :| c in sent && c.is_correct;
    var k :| 0 <= k < |sent| && sent[k] == c;
    assert rows[k].is_correct;
  }

  /** The question number the form shows after the list loads: one past the
      largest existing number, or unchanged for an empty list. */
  function MaxNumber(numbers: seq<int>): (m: int)
    requires numbers != []
    ensures m in numbers && forall n :: n in numbers ==> n <= m
  {
    if |numbers| == 1 then numbers[0]
    else
      var rest := MaxNumber(numbers[1..]);
      assert forall n :: n in numbers ==> n == numbers[0] || n in numbers[1..];
      if numbers[0] >= rest then numbers[0] else rest
  }

  function Numbers(qs: seq<QuestionWithChoices>): (r: seq<int>)
    ensures |r| == |qs| && forall i :: 0 <= i < |qs| ==> r[i] == qs[i].question.question_number
  {
    seq(|qs|, i requires 0 <= i < |qs| => qs[i].question.question_number)
  }

  /** `fetchQuestions` after a successful load. */
  function AfterLoad(f: Form, loaded: seq<QuestionWithChoices>): (r: Form)
    ensures loaded == [] ==> r == f
    ensures loaded != [] ==>
      r == f.(question_number := r.question_number) &&
      (forall i :: 0 <= i < |loaded| ==> loaded[i].question.question_number < r.question_number) &&
      (exists i :: 0 <= i < |loaded| && loaded[i].question.question_number == r.question_number - 1)
  {
    if loaded == [] then f
    else
      var m := MaxNumber(Numbers(loaded));
      assert forall i :: 0 <= i < |loaded| ==> Numbers(loaded)[i] in Numbers(loaded);
      f.(question_number := m + 1)
  }

  /** What a successful submit resets the form to, before the list reloads. */
  function AfterSubmit(f: Form): (r: Form)
    ensures r == Blank(f.question_number + 1)
    ensures r.question_number > f.question_number
  {
    Blank(f.question_number + 1)
  }
}
