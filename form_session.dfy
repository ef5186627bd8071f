/** The questionnaire page's form session: the views it derives from the answers
    (visible questions, sections, questions of the current section), the validation of a
    section, and the handlers that change the answers, the section index and the errors.
    The page's own question list is a parameter; each condition and each validation rule
    is an arbitrary function. */
module FormSession {
  import opened Values
  import opened Seqs

  /** What a validation rule's `safeParse` reports: success, or failure with the messages
      of its issues, first issue first. */
  datatype ParseResult = Success | Failure(messages: seq<string>)

  /** A question is shown when `condition` accepts the answer stored under `dependsOn`. */
  datatype PageCondition = PageCondition(dependsOn: string, condition: Option<Value> -> bool)

  /** The parts of a page question that the session logic reads. */
  datatype PageQuestion = PageQuestion(
    id: string,
    section: string,
    required: bool,
    conditional: Option<PageCondition>,
    validation: Option<Value -> ParseResult>)

  const RequiredMessage: string := "שדה חובה"
  const InvalidMessage: string := "ערך לא תקין"

  // ---------------------------------------------------------------------------
  // Derived views

  function IsVisible(data: map<string, Value>): (test: PageQuestion -> bool)
  {
    (q: PageQuestion) =>
      q.conditional.None? || q.conditional.value.condition(Lookup(data, q.conditional.value.dependsOn))
  }

  /** `visibleQuestions`. */
  function Visible(questions: seq<PageQuestion>, data: map<string, Value>): (visible: seq<PageQuestion>)
    ensures |visible| <= |questions|
    ensures forall i :: 0 <= i < |visible| && visible[i].conditional.Some? ==>
      visible[i].conditional.value.condition(Lookup(data, visible[i].conditional.value.dependsOn))
  {
    Filter(IsVisible(data), questions)
  }

  /** The visible questions keep their order; every question without a condition is
      visible; a conditional question is visible iff its condition accepts the answer it
      depends on. */
  lemma VisibleSpec(questions: seq<PageQuestion>, data: map<string, Value>)
    ensures IsSubseq(Visible(questions, data), questions)
    ensures forall q :: q in questions && q.conditional.None? ==> q in Visible(questions, data)
    ensures forall q :: q in questions && q.conditional.Some? ==>
      (q in Visible(questions, data) <==> q.conditional.value.condition(Lookup(data, q.conditional.value.dependsOn)))
    ensures forall q :: q in Visible(questions, data) ==> q in questions
    ensures forall q :: multiset(Visible(questions, data))[q] == (if IsVisible(data)(q) then multiset(questions)[q] else 0)
  {
    FilterSpec(IsVisible(data), questions);
  }

  /** Changing an answer that no condition depends on leaves the visible questions as they were. */
  lemma VisibleIgnoresUnreferenced(questions: seq<PageQuestion>, data: map<string, Value>, id: string, v: Value)
    requires forall i :: 0 <= i < |questions| && questions[i].conditional.Some? ==>
      questions[i].conditional.value.dependsOn != id
    ensures Visible(questions, data[id := v]) == Visible(questions, data)
  {
    forall i | 0 <= i < |questions|
      ensures IsVisible(data[id := v])(questions[i]) == IsVisible(data)(questions[i])
    {
      if questions[i].conditional.Some? {
        var dep := questions[i].conditional.value.dependsOn;
        assert Lookup(data[id := v], dep) == Lookup(data, dep);
      }
    }
    FilterCongruent(IsVisible(data[id := v]), IsVisible(data), questions);
  }

  /** `visibleQuestions.map(q => q.section)`. */
  function Labels(visible: seq<PageQuestion>): (labels: seq<string>)
    ensures |labels| == |visible|
    ensures forall i :: 0 <= i < |visible| ==> labels[i] == visible[i].section
  {
    seq(|visible|, i requires 0 <= i < |visible| => visible[i].section)
  }

  /** `sections`: the distinct section labels, as a `Set` collects them. */
  function SectionsOf(visible: seq<PageQuestion>): (sections: seq<string>)
    ensures forall k :: 0 <= k < |sections| ==> sections[k] in Labels(visible)
    ensures forall i :: 0 <= i < |visible| ==> visible[i].section in sections
  {
    Distinct(Labels(visible))
  }

  /** Sections are listed once each, in the order their first question appears, and they
      are exactly the sections of the visible questions. */
  lemma SectionsSpec(visible: seq<PageQuestion>)
    ensures NoDuplicates(SectionsOf(visible))
    ensures forall i, j :: 0 <= i < j < |SectionsOf(visible)| ==>
      FirstIndex(Labels(visible), SectionsOf(visible)[i]) < FirstIndex(Labels(visible), SectionsOf(visible)[j])
    ensures forall i :: 0 <= i < |visible| ==> visible[i].section in SectionsOf(visible)
    ensures forall k :: 0 <= k < |SectionsOf(visible)| ==>
      exists i :: 0 <= i < |visible| && visible[i].section == SectionsOf(visible)[k]
  {
    DistinctSpec(Labels(visible));
    var labels := Labels(visible);
    forall k | 0 <= k < |SectionsOf(visible)|
      ensures exists i :: 0 <= i < |visible| && visible[i].section == SectionsOf(visible)[k]
    {
      var i := FirstIndex(labels, SectionsOf(visible)[k]);
      assert visible[i].section == labels[i];
    }
  }

  function SectionIs(section: string): (test: PageQuestion -> bool)
  {
    (q: PageQuestion) => q.section == section
  }

  /** `questionsInCurrentSection`; past the last section, `sections[currentSection]` is
      undefined and no question's section equals it. */
  function InSection(visible: seq<PageQuestion>, sections: seq<string>, current: nat): (inSection: seq<PageQuestion>)
    ensures |inSection| <= |visible|
    ensures forall i :: 0 <= i < |inSection| ==> current < |sections| && inSection[i].section == sections[current]
  {
    if current < |sections| then Filter(SectionIs(sections[current]), visible) else []
  }

  /** The questions of the current section are, in order, exactly the visible questions
      whose section is the current one; there are none past the last section, and at least
      one for every section that exists. */
  lemma InSectionSpec(visible: seq<PageQuestion>, current: nat)
    ensures current >= |SectionsOf(visible)| ==> InSection(visible, SectionsOf(visible), current) == []
    ensures current < |SectionsOf(visible)| ==>
      && IsSubseq(InSection(visible, SectionsOf(visible), current), visible)
      && (forall q :: q in InSection(visible, SectionsOf(visible), current) <==>
            q in visible && q.section == SectionsOf(visible)[current])
      && (forall q :: multiset(InSection(visible, SectionsOf(visible), current))[q] ==
            if q.section == SectionsOf(visible)[current] then multiset(visible)[q] else 0)
      && |InSection(visible, SectionsOf(visible), current)| > 0
  {
    var sections := SectionsOf(visible);
    if current < |sections| {
      var p := SectionIs(sections[current]);
      FilterSpec(p, visible);
      SectionsSpec(visible);
      var i :| 0 <= i < |visible| && visible[i].section == sections[current];
      FilterKeeps(p, visible, visible[i]);
    }
  }

  // ---------------------------------------------------------------------------
  // Validation

  /** `result.error.errors[0]?.message || 'ערך לא תקין'`. */
  function FailureMessage(messages: seq<string>): (m: string)
    ensures m != ""
    ensures |messages| > 0 && messages[0] != "" ==> m == messages[0]
    ensures !(|messages| > 0 && messages[0] != "") ==> m == InvalidMessage
  {
    if |messages| > 0 && messages[0] != "" then messages[0] else InvalidMessage
  }

  /** The error one question of the section gets, if any. */
  function QuestionError(q: PageQuestion, data: map<string, Value>): (error: Option<string>)
    ensures error.Some? ==> error.value != ""
    ensures error.None? && q.required ==> Truthy(Lookup(data, q.id))
    ensures !Truthy(Lookup(data, q.id)) ==> (error.Some? <==> q.required)
  {
    var answer := Lookup(data, q.id);
    if q.required && !Truthy(answer) then Some(RequiredMessage)
    else if Truthy(answer) && q.validation.Some? then
      match q.validation.value(answer.value)
      case Success => None
      case Failure(messages) => Some(FailureMessage(messages))
    else None
  }

  /** A required question with a falsy answer gets the required message whatever its rule;
      an optional question with a falsy answer gets no error; a truthy answer fails exactly
      when its rule rejects it, with the rule's first message or the fallback; and no error
      message is empty. */
  lemma QuestionErrorSpec(q: PageQuestion, data: map<string, Value>)
    ensures QuestionError(q, data).Some? ==> QuestionError(q, data).value != ""
    ensures q.required && !Truthy(Lookup(data, q.id)) ==>
      forall rule :: QuestionError(q.(validation := rule), data) == Some(RequiredMessage)
    ensures !q.required && !Truthy(Lookup(data, q.id)) ==> QuestionError(q, data).None?
    ensures Truthy(Lookup(data, q.id)) ==>
      (QuestionError(q, data).Some? <==> q.validation.Some? && q.validation.value(data[q.id]).Failure?)
    ensures Truthy(Lookup(data, q.id)) && q.validation.Some? && q.validation.value(data[q.id]).Failure? ==>
      QuestionError(q, data) == Some(FailureMessage(q.validation.value(data[q.id]).messages))
  {
  }

  /** The `newErrors` map after the section's first `|qs|` questions: each question that
      has an error writes it under its id, a later write replacing an earlier one. */
  function SectionErrors(qs: seq<PageQuestion>, data: map<string, Value>): (newErrors: map<string, string>)
    ensures forall id :: id in newErrors ==> newErrors[id] != ""
  {
    if |qs| == 0 then map[]
    else
      var errs := SectionErrors(qs[..|qs| - 1], data);
      var q := qs[|qs| - 1];
      match QuestionError(q, data)
      case Some(m) => errs[q.id := m]
      case None => errs
  }

  /** Some question of `qs` with this id has an error. */
  ghost predicate HasError(qs: seq<PageQuestion>, data: map<string, Value>, id: string)
  {
    exists i :: 0 <= i < |qs| && qs[i].id == id && QuestionError(qs[i], data).Some?
  }

  lemma HasErrorSnoc(qs: seq<PageQuestion>, data: map<string, Value>, id: string)
    requires |qs| > 0
    ensures HasError(qs, data, id) <==>
      HasError(qs[..|qs| - 1], data, id) || (qs[|qs| - 1].id == id && QuestionError(qs[|qs| - 1], data).Some?)
  {
    var init := qs[..|qs| - 1];
    if HasError(init, data, id) {
      var i :| 0 <= i < |init| && init[i].id == id && QuestionError(init[i], data).Some?;
      assert qs[i] == init[i];
    }
    if HasError(qs, data, id) {
      var i :| 0 <= i < |qs| && qs[i].id == id && QuestionError(qs[i], data).Some?;
      if i < |init| {
        assert init[i] == qs[i];
      }
    }
  }

  /** An id carries an error exactly when some question of the section with that id has one. */
  lemma {:induction false} SectionErrorsKeys(qs: seq<PageQuestion>, data: map<string, Value>)
    ensures forall id :: id in SectionErrors(qs, data) <==> HasError(qs, data, id)
  {
    if |qs| > 0 {
      SectionErrorsKeys(qs[..|qs| - 1], data);
      forall id
        ensures id in SectionErrors(qs, data) <==> HasError(qs, data, id)
      {
        HasErrorSnoc(qs, data, id);
      }
    }
  }

  /** The error an id carries is that of the last question with that id that has one. */
  lemma {:induction false} SectionErrorsLast(qs: seq<PageQuestion>, data: map<string, Value>, i: nat)
    requires i < |qs| && QuestionError(qs[i], data).Some?
    requires forall j :: i < j < |qs| && qs[j].id == qs[i].id ==> QuestionError(qs[j], data).None?
    ensures qs[i].id in SectionErrors(qs, data)
    ensures SectionErrors(qs, data)[qs[i].id] == QuestionError(qs[i], data).value
  {
    if i < |qs| - 1 {
      var init := qs[..|qs| - 1];
      assert init[i] == qs[i];
      forall j | i < j < |init| && init[j].id == init[i].id
        ensures QuestionError(init[j], data).None?
      {
        assert init[j] == qs[j];
      }
      SectionErrorsLast(init, data, i);
    }
  }

  /** A section passes validation exactly when none of its questions has an error; then
      every required question in it has a truthy answer. */
  lemma SectionErrorsEmpty(qs: seq<PageQuestion>, data: map<string, Value>)
    ensures |SectionErrors(qs, data)| == 0 <==> forall i :: 0 <= i < |qs| ==> QuestionError(qs[i], data).None?
    ensures |SectionErrors(qs, data)| == 0 ==>
      forall i :: 0 <= i < |qs| && qs[i].required ==> Truthy(Lookup(data, qs[i].id))
  {
    SectionErrorsKeys(qs, data);
    if |SectionErrors(qs, data)| != 0 {
      var id :| id in SectionErrors(qs, data);
      assert HasError(qs, data, id);
    }
    if exists i :: 0 <= i < |qs| && QuestionError(qs[i], data).Some? {
      var i :| 0 <= i < |qs| && QuestionError(qs[i], data).Some?;
      assert HasError(qs, data, qs[i].id);
    }
  }

  /** The `forEach` of `validateSection()`: a fresh error map filled question by question. */
  method CollectErrors(qs: seq<PageQuestion>, data: map<string, Value>) returns (newErrors: map<string, string>)
    ensures newErrors == SectionErrors(qs, data)
    ensures forall id :: id in newErrors <==> HasError(qs, data, id)
    ensures |newErrors| == 0 <==> forall i :: 0 <= i < |qs| ==> QuestionError(qs[i], data).None?
  {
    newErrors := map[];
    var i := 0;
    while i < |qs|
      invariant 0 <= i <= |qs|
      invariant newErrors == SectionErrors(qs[..i], data)
    {
      var q := qs[i];
      assert qs[..i + 1][..i] == qs[..i];
      var answer := Lookup(data, q.id);
      if q.required && !Truthy(answer) {
        newErrors := newErrors[q.id := RequiredMessage];
      } else if Truthy(answer) && q.validation.Some? {
        var result := q.validation.value(answer.value);
        if result.Failure? {
          newErrors := newErrors[q.id := FailureMessage(result.messages)];
        }
      }
      i := i + 1;
    }
    assert qs[..|qs|] == qs;
    SectionErrorsKeys(qs, data);
    SectionErrorsEmpty(qs, data);
  }

  // ---------------------------------------------------------------------------
  // The page's state and handlers

  class QuestionnairePage {
    const questions: seq<PageQuestion>
    var formData: map<string, Value>
    var currentSection: nat
    var errors: map<string, string>

    /** A fresh page: no answers, the first section, no errors. */
    constructor(questions: seq<PageQuestion>)
      ensures this.questions == questions
      ensures formData == map[] && currentSection == 0 && errors == map[]
    {
      this.questions := questions;
      formData := map[];
      currentSection := 0;
      errors := map[];
    }

    function VisibleQuestions(): seq<PageQuestion>
      reads this
    {
      Visible(questions, formData)
    }

    function Sections(): seq<string>
      reads this
    {
      SectionsOf(VisibleQuestions())
    }

    function QuestionsInCurrentSection(): seq<PageQuestion>
      reads this
    {
      InSection(VisibleQuestions(), Sections(), currentSection)
    }

    /** The section index names an existing section, or is 0 when there is none. */
    ghost predicate InRange()
      reads this
    {
      currentSection == 0 || currentSection < |Sections()|
    }

    /** `validateSection()`: replaces the errors by those of the current section's questions
      and reports whether there are none. */
    method ValidateSection() returns (valid: bool)
      modifies this
      ensures formData == old(formData) && currentSection == old(currentSection)
      ensures errors == SectionErrors(QuestionsInCurrentSection(), formData)
      ensures valid <==> |errors| == 0
    {
      var newErrors := CollectErrors(QuestionsInCurrentSection(), formData);
      errors := newErrors;
      valid := |newErrors| == 0;
    }

    /** `handleNext()`: validates the current section and, if it passes and is not the last
      one, moves to the next section. */
    method HandleNext()
      modifies this
      ensures formData == old(formData)
      ensures errors == SectionErrors(old(QuestionsInCurrentSection()), formData)
      ensures currentSection ==
        if |errors| == 0 && old(currentSection) + 1 < |Sections()| then old(currentSection) + 1
        else old(currentSection)
      ensures old(InRange()) ==> InRange()
      ensures currentSection != old(currentSection) ==>
        forall q :: q in old(QuestionsInCurrentSection()) && q.required ==> Truthy(Lookup(formData, q.id))
    {
      var valid := ValidateSection();
      if valid {
        if currentSection + 1 < |Sections()| {
          SectionErrorsEmpty(QuestionsInCurrentSection(), formData);
          currentSection := currentSection + 1;
        }
      }
    }

    /** `handleBack()`: moves to the previous section, if there is one, without validating. */
    method HandleBack()
      modifies this
      ensures formData == old(formData) && errors == old(errors)
      ensures currentSection == if old(currentSection) > 0 then old(currentSection) - 1 else 0
      ensures old(InRange()) ==> InRange()
    {
      if currentSection > 0 {
        currentSection := currentSection - 1;
      }
    }

    /** `handleInputChange(id, value)`: stores the answer and blanks a shown error of the
      same question; every other answer and error is kept. */
    method HandleInputChange(id: string, value: Value)
      modifies this
      ensures formData == old(formData)[id := value]
      ensures currentSection == old(currentSection)
      ensures errors ==
        if id in old(errors) && old(errors)[id] != "" then old(errors)[id := ""] else old(errors)
      ensures forall k :: k != id ==> Lookup(formData, k) == Lookup(old(formData), k)
      ensures forall k :: k != id ==> (k in errors <==> k in old(errors)) && (k in errors ==> errors[k] == old(errors)[k])
    {
      formData := formData[id := value];
      if id in errors && errors[id] != "" {
        errors := errors[id := ""];
      }
    }

    /** `handleFileChange(id, file)`: stores the chosen file's name; with no file nothing
      changes. Unlike an input change, it leaves the errors as they are. */
    method HandleFileChange(id: string, file: Option<string>)
      modifies this
      ensures formData == if file.Some? then old(formData)[id := Str(file.value)] else old(formData)
      ensures currentSection == old(currentSection) && errors == old(errors)
    {
      if file.Some? {
        formData := formData[id := Str(file.value)];
      }
    }

    /** The gate at the top of `handleSubmit()`: the form is sent only when the current
      section validates. */
    method HandleSubmit() returns (sent: bool)
      modifies this
      ensures formData == old(formData) && currentSection == old(currentSection)
      ensures errors == SectionErrors(QuestionsInCurrentSection(), formData)
      ensures sent <==> |errors| == 0
      ensures sent ==> forall q :: q in QuestionsInCurrentSection() && q.required ==> Truthy(Lookup(formData, q.id))
    {
      sent := ValidateSection();
      SectionErrorsEmpty(QuestionsInCurrentSection(), formData);
    }
  }
}
