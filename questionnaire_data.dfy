/** The question catalog of the client-intake questionnaire and its helpers: conditional
    visibility, the category filter and the progress percentage. Only the parts of a
    question that the helpers read are kept: id, category, the required flag and the
    conditional rule. */
module QuestionnaireData {
  import opened Values
  import opened Seqs

  /** How a conditional question compares the answer it depends on: by strict equality
      with a literal, by membership in a list, or by applying a predicate. */
  datatype ShowWhen = Equals(literal: Value) | OneOf(values: seq<Value>) | Pred(test: Option<Value> -> bool)

  datatype Conditional = Conditional(dependsOn: int, showWhen: ShowWhen)

  datatype Question = Question(id: int, category: string, required: bool, conditional: Option<Conditional>)

  /** An entry of `questionnaireConfig.categories`: its number and declared question count. */
  datatype CategoryInfo = CategoryInfo(id: nat, questions: nat)

  const Categories: seq<CategoryInfo> := [
    CategoryInfo(1, 10), CategoryInfo(2, 8), CategoryInfo(3, 6), CategoryInfo(4, 7),
    CategoryInfo(5, 8), CategoryInfo(6, 10), CategoryInfo(7, 5), CategoryInfo(8, 4)
  ]

  /** The category key the catalog uses for each entry of `Categories`, in the same order. */
  const CategoryKeys: seq<string> := [
    "personal", "employment", "family", "financial", "insurance", "health", "preferences", "consents"
  ]

  /** `(value: number) => value > 0`, the rule of question 22, under JavaScript's
      conversion of its operand to a number: undefined converts to NaN, booleans to 0 or 1,
      and a string of decimal digits to its value. */
  function GreaterThanZero(v: Option<Value>): (positive: bool)
    ensures v.None? ==> !positive
    ensures v.Some? && v.value.Num? ==> (positive <==> v.value.n > 0)
    ensures v.Some? && v.value.Bool? ==> (positive <==> v.value.b)
    ensures v.Some? && v.value.Str? ==> (positive <==> IsDecimal(v.value.s) && DecimalValue(v.value.s) > 0)
  {
    match v
    case None => false
    case Some(Num(n)) => n > 0
    case Some(Bool(b)) => b
    case Some(Str(s)) =>
      if IsDecimal(s) then
        DecimalPositive(s);
        exists i :: 0 <= i < |s| && s[i] != '0'
      else false
  }

  predicate IsDecimal(s: string)
  {
    |s| > 0 && forall i :: 0 <= i < |s| ==> '0' <= s[i] <= '9'
  }

  /** The number a string of decimal digits denotes. */
  function DecimalValue(s: string): nat
    requires forall i :: 0 <= i < |s| ==> '0' <= s[i] <= '9'
  {
    if |s| == 0 then 0 else 10 * DecimalValue(s[..|s| - 1]) + (s[|s| - 1] - '0') as nat
  }

  /** A string of decimal digits denotes a positive number iff some digit is not zero. */
  lemma {:induction false} DecimalPositive(s: string)
    requires forall i :: 0 <= i < |s| ==> '0' <= s[i] <= '9'
    ensures DecimalValue(s) > 0 <==> exists i :: 0 <= i < |s| && s[i] != '0'
  {
    if |s| > 0 {
      var init := s[..|s| - 1];
      DecimalPositive(init);
      if exists i :: 0 <= i < |init| && init[i] != '0' {
        var i :| 0 <= i < |init| && init[i] != '0';
        assert s[i] == init[i];
      }
      if exists i :: 0 <= i < |s| && s[i] != '0' {
        var i :| 0 <= i < |s| && s[i] != '0';
        if i < |init| {
          assert init[i] == s[i];
        }
      }
    }
  }

  /** Category 1: questions 1-10. */
  const PersonalQuestions: seq<Question> := [
    Question(1, "personal", true, None),
    Question(2, "personal", true, None),
    Question(3, "personal", true, None),
    Question(4, "personal", true, None),
    Question(5, "personal", true, None),
    Question(6, "personal", true, None),
    Question(7, "personal", true, None),
    Question(8, "personal", true, None),
    Question(9, "personal", true, None),
    Question(10, "personal", true, None)
  ]

  /** Category 2: questions 11-18. */
  const EmploymentQuestions: seq<Question> := [
    Question(11, "employment", true, None),
    Question(12, "employment", false, Some(Conditional(11, OneOf([Str("שכיר"), Str("שכיר ועצמאי")])))),
    Question(13, "employment", false, Some(Conditional(11, OneOf([Str("שכיר"), Str("עצמאי"), Str("שכיר ועצמאי")])))),
    Question(14, "employment", false, Some(Conditional(11, OneOf([Str("שכיר"), Str("שכיר ועצמאי")])))),
    Question(15, "employment", false, Some(Conditional(11, OneOf([Str("עצמאי"), Str("שכיר ועצמאי")])))),
    Question(16, "employment", false, None),
    Question(17, "employment", false, Some(Conditional(11, OneOf([Str("עצמאי"), Str("שכיר ועצמאי")])))),
    Question(18, "employment", false, None)
  ]

  /** Category 3: questions 19-24. */
  const FamilyQuestions: seq<Question> := [
    Question(19, "family", false, Some(Conditional(9, Equals(Str("נשוי/אה"))))),
    Question(20, "family", false, Some(Conditional(9, Equals(Str("נשוי/אה"))))),
    Question(21, "family", false, Some(Conditional(9, Equals(Str("נשוי/אה"))))),
    Question(22, "family", false, Some(Conditional(10, Pred(GreaterThanZero)))),
    Question(23, "family", false, None),
    Question(24, "family", false, None)
  ]

  /** Category 4: questions 25-31. */
  const FinancialQuestions: seq<Question> := [
    Question(25, "financial", false, None),
    Question(26, "financial", false, None),
    Question(27, "financial", false, None),
    Question(28, "financial", false, Some(Conditional(27, Equals(Str("כן"))))),
    Question(29, "financial", false, None),
    Question(30, "financial", false, Some(Conditional(29, Equals(Str("כן"))))),
    Question(31, "financial", false, None)
  ]

  /** Category 5: questions 32-39. */
  const InsuranceQuestions: seq<Question> := [
    Question(32, "insurance", true, None),
    Question(33, "insurance", false, Some(Conditional(32, Equals(Str("כן"))))),
    Question(34, "insurance", false, None),
    Question(35, "insurance", false, None),
    Question(36, "insurance", false, None),
    Question(37, "insurance", false, None),
    Question(38, "insurance", false, None),
    Question(39, "insurance", false, None)
  ]

  /** Category 6: questions 40-49. */
  const HealthQuestions: seq<Question> := [
    Question(40, "health", false, None),
    Question(41, "health", false, None),
    Question(42, "health", false, None),
    Question(43, "health", false, None),
    Question(44, "health", false, Some(Conditional(43, Equals(Str("כן"))))),
    Question(45, "health", false, None),
    Question(46, "health", false, Some(Conditional(45, Equals(Str("כן"))))),
    Question(47, "health", false, None),
    Question(48, "health", false, None),
    Question(49, "health", false, None)
  ]

  /** Category 7: questions 50-54. */
  const PreferencesQuestions: seq<Question> := [
    Question(50, "preferences", false, None),
    Question(51, "preferences", false, None),
    Question(52, "preferences", false, None),
    Question(53, "preferences", false, None),
    Question(54, "preferences", false, None)
  ]

  /** Category 8: questions 55-58. */
  const ConsentsQuestions: seq<Question> := [
    Question(55, "consents", false, None),
    Question(56, "consents", true, None),
    Question(57, "consents", true, None),
    Question(58, "consents", true, None)
  ]

  /** The ordered list of all 58 questions. */
  const Catalog: seq<Question> :=
    PersonalQuestions + EmploymentQuestions + FamilyQuestions + FinancialQuestions +
    InsuranceQuestions + HealthQuestions + PreferencesQuestions + ConsentsQuestions

  // ---------------------------------------------------------------------------
  // Conditional visibility

  /** `xs.includes(v)`; an absent answer is `undefined`, which no list of values contains. */
  function Includes(xs: seq<Value>, v: Option<Value>): (found: bool)
    ensures found <==> v.Some? && v.value in xs
  {
    if |xs| == 0 then false else Some(xs[0]) == v || Includes(xs[1..], v)
  }

  /** `shouldShowQuestion(question, answers)`. */
  function ShouldShow(q: Question, answers: map<int, Value>): (shown: bool)
    ensures q.conditional.None? ==> shown
    ensures q.conditional.Some? && !q.conditional.value.showWhen.Pred? && q.conditional.value.dependsOn !in answers ==> !shown
  {
    match q.conditional
    case None => true
    case Some(c) =>
      var dependentAnswer := Lookup(answers, c.dependsOn);
      match c.showWhen
      case Pred(test) => test(dependentAnswer)
      case OneOf(values) => Includes(values, dependentAnswer)
      case Equals(literal) => dependentAnswer == Some(literal)
  }

  /** A question without a conditional is always shown; a conditional one is shown iff its
      rule accepts the answer to the question it depends on: that answer equals the literal,
      is one of the listed values, or satisfies the predicate. */
  lemma ShouldShowSpec(q: Question, answers: map<int, Value>)
    ensures q.conditional.None? ==> ShouldShow(q, answers)
    ensures q.conditional.Some? && q.conditional.value.showWhen.Equals? ==>
      (ShouldShow(q, answers) <==>
         q.conditional.value.dependsOn in answers &&
         answers[q.conditional.value.dependsOn] == q.conditional.value.showWhen.literal)
    ensures q.conditional.Some? && q.conditional.value.showWhen.OneOf? ==>
      (ShouldShow(q, answers) <==>
         q.conditional.value.dependsOn in answers &&
         answers[q.conditional.value.dependsOn] in q.conditional.value.showWhen.values)
    ensures q.conditional.Some? && q.conditional.value.showWhen.Pred? ==>
      (ShouldShow(q, answers) <==>
         q.conditional.value.showWhen.test(Lookup(answers, q.conditional.value.dependsOn)))
  {
  }

  /** Visibility reads only the answer to the question depended on. */
  lemma ShouldShowLocal(q: Question, answers: map<int, Value>, answers': map<int, Value>)
    requires q.conditional.Some?
    requires Lookup(answers, q.conditional.value.dependsOn) == Lookup(answers', q.conditional.value.dependsOn)
    ensures ShouldShow(q, answers) == ShouldShow(q, answers')
  {
  }

  /** No literal or list contains an absent answer, so a question with such a rule is
      hidden while the question it depends on is unanswered. */
  lemma AbsentDependencyHidesLiteralRule(q: Question, answers: map<int, Value>)
    requires q.conditional.Some? && !q.conditional.value.showWhen.Pred?
    requires q.conditional.value.dependsOn !in answers
    ensures !ShouldShow(q, answers)
  {
  }

  // ---------------------------------------------------------------------------
  // Category filter and progress

  function CategoryIs(category: string): (test: Question -> bool)
  {
    (q: Question) => q.category == category
  }

  /** `getQuestionsByCategory(category)`. */
  function GetQuestionsByCategory(category: string): (found: seq<Question>)
    ensures |found| <= |Catalog|
    ensures forall i :: 0 <= i < |found| ==> found[i].category == category
  {
    Filter(CategoryIs(category), Catalog)
  }

  predicate Required(q: Question)
  {
    q.required
  }

  /** `answers[id] !== undefined && answers[id] !== ''`: false and 0 count as answers. */
  predicate IsAnswered(v: Option<Value>)
  {
    v.Some? && v.value != Str("")
  }

  function AnsweredRequired(answers: map<int, Value>): (test: Question -> bool)
  {
    (q: Question) => q.required && IsAnswered(Lookup(answers, q.id))
  }

  /** `Math.round(num / den)` for a non-negative quotient: the nearest whole number,
      halves rounded up. */
  function RoundHalfUp(num: nat, den: nat): (r: nat)
    requires den > 0
    ensures 2 * r * den <= 2 * num + den < 2 * (r + 1) * den
  {
    (2 * num + den) / (2 * den)
  }

  /** `calculateProgress(answers)`: the percentage of required questions answered. */
  function CalculateProgress(answers: map<int, Value>): (percent: nat)
    ensures percent <= 100
  {
    RequiredCount();
    FilterWeaker(AnsweredRequired(answers), Required, Catalog);
    RoundHalfUp(100 * |Filter(AnsweredRequired(answers), Catalog)|, |Filter(Required, Catalog)|)
  }

  // ---------------------------------------------------------------------------
  // What the catalog promises

  /** Answer 11 "not employed", the one employment status that no employment detail depends on. */
  const NotEmployed: string := "לא עובד/ת"

  /** What the catalog promises of each question, from the first id of its block on: ids
      run consecutively; a conditional names an earlier question; an unanswered
      dependency hides the question; and no question that depends on the employment
      status is shown to someone not employed. */
  ghost predicate WellFormedFrom(b: seq<Question>, firstId: int)
  {
    forall i :: 0 <= i < |b| ==>
      && b[i].id == firstId + i
      && (b[i].conditional.Some? ==>
            && 1 <= b[i].conditional.value.dependsOn < b[i].id
            && !ShouldShow(b[i], map[])
            && (b[i].conditional.value.dependsOn == 11 ==> !ShouldShow(b[i], map[11 := Str(NotEmployed)])))
  }

  /** The required questions of `b` are exactly those at positions `lo` to `hi - 1`. */
  ghost predicate RequiredExactly(b: seq<Question>, lo: nat, hi: nat)
  {
    && lo <= hi <= |b|
    && forall i :: 0 <= i < |b| ==> (b[i].required <==> lo <= i < hi)
  }

  ghost predicate AllInCategory(b: seq<Question>, category: string)
  {
    forall i :: 0 <= i < |b| ==> b[i].category == category
  }

  /** Eight blocks laid out as the catalog's categories are. */
  ghost predicate LaidOut(b1: seq<Question>, b2: seq<Question>, b3: seq<Question>, b4: seq<Question>,
                          b5: seq<Question>, b6: seq<Question>, b7: seq<Question>, b8: seq<Question>)
  {
    && |b1| == 10 && WellFormedFrom(b1, 1) && AllInCategory(b1, "personal") && RequiredExactly(b1, 0, 10)
    && |b2| == 8 && WellFormedFrom(b2, 11) && AllInCategory(b2, "employment") && RequiredExactly(b2, 0, 1)
    && |b3| == 6 && WellFormedFrom(b3, 19) && AllInCategory(b3, "family") && RequiredExactly(b3, 0, 0)
    && |b4| == 7 && WellFormedFrom(b4, 25) && AllInCategory(b4, "financial") && RequiredExactly(b4, 0, 0)
    && |b5| == 8 && WellFormedFrom(b5, 32) && AllInCategory(b5, "insurance") && RequiredExactly(b5, 0, 1)
    && |b6| == 10 && WellFormedFrom(b6, 40) && AllInCategory(b6, "health") && RequiredExactly(b6, 0, 0)
    && |b7| == 5 && WellFormedFrom(b7, 50) && AllInCategory(b7, "preferences") && RequiredExactly(b7, 0, 0)
    && |b8| == 4 && WellFormedFrom(b8, 55) && AllInCategory(b8, "consents") && RequiredExactly(b8, 1, 4)
  }

  lemma PersonalBlock()
    ensures WellFormedFrom(PersonalQuestions, 1) && AllInCategory(PersonalQuestions, "personal")
    ensures RequiredExactly(PersonalQuestions, 0, 10)
  {
  }

  lemma EmploymentBlock()
    ensures WellFormedFrom(EmploymentQuestions, 11) && AllInCategory(EmploymentQuestions, "employment")
    ensures RequiredExactly(EmploymentQuestions, 0, 1)
  {
  }

  lemma FamilyBlock()
    ensures WellFormedFrom(FamilyQuestions, 19) && AllInCategory(FamilyQuestions, "family")
    ensures RequiredExactly(FamilyQuestions, 0, 0)
  {
  }

  lemma FinancialBlock()
    ensures WellFormedFrom(FinancialQuestions, 25) && AllInCategory(FinancialQuestions, "financial")
    ensures RequiredExactly(FinancialQuestions, 0, 0)
  {
  }

  lemma InsuranceBlock()
    ensures WellFormedFrom(InsuranceQuestions, 32) && AllInCategory(InsuranceQuestions, "insurance")
    ensures RequiredExactly(InsuranceQuestions, 0, 1)
  {
  }

  lemma HealthBlock()
    ensures WellFormedFrom(HealthQuestions, 40) && AllInCategory(HealthQuestions, "health")
    ensures RequiredExactly(HealthQuestions, 0, 0)
  {
  }

  lemma PreferencesBlock()
    ensures WellFormedFrom(PreferencesQuestions, 50) && AllInCategory(PreferencesQuestions, "preferences")
    ensures RequiredExactly(PreferencesQuestions, 0, 0)
  {
  }

  lemma ConsentsBlock()
    ensures WellFormedFrom(ConsentsQuestions, 55) && AllInCategory(ConsentsQuestions, "consents")
    ensures RequiredExactly(ConsentsQuestions, 1, 4)
  {
  }

  lemma WellFormedConcat(a: seq<Question>, b: seq<Question>, firstId: int)
    requires WellFormedFrom(a, firstId) && WellFormedFrom(b, firstId + |a|)
    ensures WellFormedFrom(a + b, firstId)
  {
  }

  /** A block whose required questions are exactly those at positions `lo` to `hi - 1`
      has `hi - lo` of them. */
  lemma {:induction false} RequiredRun(b: seq<Question>, lo: nat, hi: nat)
    requires RequiredExactly(b, lo, hi)
    ensures |Filter(Required, b)| == hi - lo
  {
    assert b == b[..lo] + b[lo..hi] + b[hi..];
    FilterConcat(Required, b[..lo] + b[lo..hi], b[hi..]);
    FilterConcat(Required, b[..lo], b[lo..hi]);
    FilterNone(Required, b[..lo]);
    FilterAll(Required, b[lo..hi]);
    FilterNone(Required, b[hi..]);
  }

  /** A block of one category contributes all of itself to that category's filter and
      nothing to any other. */
  lemma CategoryFilterBlock(b: seq<Question>, key: string, category: string)
    requires AllInCategory(b, key)
    ensures Filter(CategoryIs(category), b) == if category == key then b else []
  {
    if category == key {
      FilterAll(CategoryIs(category), b);
    } else {
      FilterNone(CategoryIs(category), b);
    }
  }

  lemma {:induction false} FilterEight(p: Question -> bool, b1: seq<Question>, b2: seq<Question>, b3: seq<Question>, b4: seq<Question>,
                                       b5: seq<Question>, b6: seq<Question>, b7: seq<Question>, b8: seq<Question>)
    ensures Filter(p, b1 + b2 + b3 + b4 + b5 + b6 + b7 + b8) ==
      Filter(p, b1) + Filter(p, b2) + Filter(p, b3) + Filter(p, b4) +
      Filter(p, b5) + Filter(p, b6) + Filter(p, b7) + Filter(p, b8)
  {
    FilterConcat(p, b1, b2);
    FilterConcat(p, b1 + b2, b3);
    FilterConcat(p, b1 + b2 + b3, b4);
    FilterConcat(p, b1 + b2 + b3 + b4, b5);
    FilterConcat(p, b1 + b2 + b3 + b4 + b5, b6);
    FilterConcat(p, b1 + b2 + b3 + b4 + b5 + b6, b7);
    FilterConcat(p, b1 + b2 + b3 + b4 + b5 + b6 + b7, b8);
  }

  /** Eight blocks laid out like the catalog's categories form a well-formed list of 58
      questions, 15 of them required. */
  lemma {:induction false} LayoutShape(b1: seq<Question>, b2: seq<Question>, b3: seq<Question>, b4: seq<Question>,
                        b5: seq<Question>, b6: seq<Question>, b7: seq<Question>, b8: seq<Question>)
    requires LaidOut(b1, b2, b3, b4, b5, b6, b7, b8)
    ensures |b1 + b2 + b3 + b4 + b5 + b6 + b7 + b8| == 58
    ensures WellFormedFrom(b1 + b2 + b3 + b4 + b5 + b6 + b7 + b8, 1)
    ensures |Filter(Required, b1 + b2 + b3 + b4 + b5 + b6 + b7 + b8)| == 15
  {
    WellFormedConcat(b1, b2, 1);
    WellFormedConcat(b1 + b2, b3, 1);
    WellFormedConcat(b1 + b2 + b3, b4, 1);
    WellFormedConcat(b1 + b2 + b3 + b4, b5, 1);
    WellFormedConcat(b1 + b2 + b3 + b4 + b5, b6, 1);
    WellFormedConcat(b1 + b2 + b3 + b4 + b5 + b6, b7, 1);
    WellFormedConcat(b1 + b2 + b3 + b4 + b5 + b6 + b7, b8, 1);
    FilterEight(Required, b1, b2, b3, b4, b5, b6, b7, b8);
    RequiredRun(b1, 0, 10);
    RequiredRun(b2, 0, 1);
    RequiredRun(b3, 0, 0);
    RequiredRun(b4, 0, 0);
    RequiredRun(b5, 0, 1);
    RequiredRun(b6, 0, 0);
    RequiredRun(b7, 0, 0);
    RequiredRun(b8, 1, 4);
  }

  /** Filtering eight such blocks by a category keeps the block of that category. */
  lemma {:induction false} LayoutCategory(c: string, b1: seq<Question>, b2: seq<Question>, b3: seq<Question>, b4: seq<Question>,
                        b5: seq<Question>, b6: seq<Question>, b7: seq<Question>, b8: seq<Question>)
    requires LaidOut(b1, b2, b3, b4, b5, b6, b7, b8)
    ensures Filter(CategoryIs(c), b1 + b2 + b3 + b4 + b5 + b6 + b7 + b8) ==
      (if c == "personal" then b1 else []) + (if c == "employment" then b2 else []) +
      (if c == "family" then b3 else []) + (if c == "financial" then b4 else []) +
      (if c == "insurance" then b5 else []) + (if c == "health" then b6 else []) +
      (if c == "preferences" then b7 else []) + (if c == "consents" then b8 else [])
  {
    FilterEight(CategoryIs(c), b1, b2, b3, b4, b5, b6, b7, b8);
    CategoryFilterBlock(b1, "personal", c);
    CategoryFilterBlock(b2, "employment", c);
    CategoryFilterBlock(b3, "family", c);
    CategoryFilterBlock(b4, "financial", c);
    CategoryFilterBlock(b5, "insurance", c);
    CategoryFilterBlock(b6, "health", c);
    CategoryFilterBlock(b7, "preferences", c);
    CategoryFilterBlock(b8, "consents", c);
  }

  lemma CatalogLayout()
    ensures LaidOut(PersonalQuestions, EmploymentQuestions, FamilyQuestions, FinancialQuestions,
                    InsuranceQuestions, HealthQuestions, PreferencesQuestions, ConsentsQuestions)
  {
    PersonalBlock();
    EmploymentBlock();
    FamilyBlock();
    FinancialBlock();
    InsuranceBlock();
    HealthBlock();
    PreferencesBlock();
    ConsentsBlock();
  }

  /** 15 questions are required: 1-11, 32 and 56-58. */
  lemma RequiredCount()
    ensures |Filter(Required, Catalog)| == 15
  {
    CatalogLayout();
    LayoutShape(PersonalQuestions, EmploymentQuestions, FamilyQuestions, FinancialQuestions,
                InsuranceQuestions, HealthQuestions, PreferencesQuestions, ConsentsQuestions);
  }

  /** The catalog holds 58 questions whose ids are 1 to 58 in list order, so the ids are
      unique and strictly increasing. */
  lemma CatalogIds()
    ensures |Catalog| == 58
    ensures forall i :: 0 <= i < |Catalog| ==> Catalog[i].id == i + 1
    ensures forall i, j :: 0 <= i < j < |Catalog| ==> Catalog[i].id < Catalog[j].id
  {
    CatalogLayout();
    LayoutShape(PersonalQuestions, EmploymentQuestions, FamilyQuestions, FinancialQuestions,
                InsuranceQuestions, HealthQuestions, PreferencesQuestions, ConsentsQuestions);
  }

  /** Every conditional question depends on a question that comes earlier in the list. */
  lemma CatalogDependenciesPrecede()
    ensures forall i :: 0 <= i < |Catalog| && Catalog[i].conditional.Some? ==>
      exists j :: 0 <= j < i && Catalog[j].id == Catalog[i].conditional.value.dependsOn
  {
    CatalogLayout();
    LayoutShape(PersonalQuestions, EmploymentQuestions, FamilyQuestions, FinancialQuestions,
                InsuranceQuestions, HealthQuestions, PreferencesQuestions, ConsentsQuestions);
    forall i | 0 <= i < |Catalog| && Catalog[i].conditional.Some?
      ensures exists j :: 0 <= j < i && Catalog[j].id == Catalog[i].conditional.value.dependsOn
    {
      var j := Catalog[i].conditional.value.dependsOn - 1;
      assert Catalog[j].id == j + 1;
    }
  }

  /** While the question a conditional question depends on is unanswered, that question is
      hidden: no literal or list holds an absent answer, and question 22's rule rejects one. */
  lemma CatalogAbsentDependencyHides(answers: map<int, Value>)
    ensures forall i ::
      (0 <= i < |Catalog| && Catalog[i].conditional.Some? && Catalog[i].conditional.value.dependsOn !in answers)
      ==> !ShouldShow(Catalog[i], answers)
  {
    CatalogLayout();
    LayoutShape(PersonalQuestions, EmploymentQuestions, FamilyQuestions, FinancialQuestions,
                InsuranceQuestions, HealthQuestions, PreferencesQuestions, ConsentsQuestions);
    forall i | 0 <= i < |Catalog| && Catalog[i].conditional.Some? &&
      Catalog[i].conditional.value.dependsOn !in answers
      ensures !ShouldShow(Catalog[i], answers)
    {
      ShouldShowLocal(Catalog[i], answers, map[]);
    }
  }

  /** Someone who answers question 11 with "not employed" is shown none of the questions
      that depend on the employment status. */
  lemma NotEmployedHidesEmploymentDetails(answers: map<int, Value>)
    requires Lookup(answers, 11) == Some(Str(NotEmployed))
    ensures forall i ::
      (0 <= i < |Catalog| && Catalog[i].conditional.Some? && Catalog[i].conditional.value.dependsOn == 11)
      ==> !ShouldShow(Catalog[i], answers)
  {
    CatalogLayout();
    LayoutShape(PersonalQuestions, EmploymentQuestions, FamilyQuestions, FinancialQuestions,
                InsuranceQuestions, HealthQuestions, PreferencesQuestions, ConsentsQuestions);
    forall i | 0 <= i < |Catalog| && Catalog[i].conditional.Some? &&
      Catalog[i].conditional.value.dependsOn == 11
      ensures !ShouldShow(Catalog[i], answers)
    {
      ShouldShowLocal(Catalog[i], answers, map[11 := Str(NotEmployed)]);
    }
  }

  /** `getQuestionsByCategory(c)` keeps the catalog's order and holds exactly the catalog
      questions of category `c`. */
  lemma GetQuestionsByCategorySpec(category: string)
    ensures IsSubseq(GetQuestionsByCategory(category), Catalog)
    ensures forall q :: q in GetQuestionsByCategory(category) <==> q in Catalog && q.category == category
  {
    FilterSpec(CategoryIs(category), Catalog);
  }

  /** Each category key selects its own block of the catalog, and any other string selects
      nothing. */
  lemma CategoryBlocks(category: string)
    ensures GetQuestionsByCategory(category) ==
      if category == "personal" then PersonalQuestions
      else if category == "employment" then EmploymentQuestions
      else if category == "family" then FamilyQuestions
      else if category == "financial" then FinancialQuestions
      else if category == "insurance" then InsuranceQuestions
      else if category == "health" then HealthQuestions
      else if category == "preferences" then PreferencesQuestions
      else if category == "consents" then ConsentsQuestions
      else []
  {
    CatalogLayout();
    LayoutCategory(category, PersonalQuestions, EmploymentQuestions, FamilyQuestions, FinancialQuestions,
                   InsuranceQuestions, HealthQuestions, PreferencesQuestions, ConsentsQuestions);
  }

  /** The number of questions `getQuestionsByCategory` finds for each category is the count
      `questionnaireConfig` declares for it, and the declared counts add up to the 58
      questions of the catalog. */
  lemma CategoryCounts()
    ensures forall k :: 0 <= k < |CategoryKeys| ==>
      |GetQuestionsByCategory(CategoryKeys[k])| == Categories[k].questions
    ensures Categories[0].questions + Categories[1].questions + Categories[2].questions +
      Categories[3].questions + Categories[4].questions + Categories[5].questions +
      Categories[6].questions + Categories[7].questions == |Catalog|
  {
    CatalogLayout();
    forall k | 0 <= k < |CategoryKeys|
      ensures |GetQuestionsByCategory(CategoryKeys[k])| == Categories[k].questions
    {
      CategoryBlocks(CategoryKeys[k]);
    }
  }

  /** The number of required questions answered. */
  function AnsweredCount(answers: map<int, Value>): (n: nat)
    ensures n <= 15
  {
    RequiredCount();
    FilterWeaker(AnsweredRequired(answers), Required, Catalog);
    |Filter(AnsweredRequired(answers), Catalog)|
  }

  /** The progress is the answered count scaled to 100 and rounded to the nearest percent. */
  lemma ProgressScale(answers: map<int, Value>)
    ensures 30 * CalculateProgress(answers) <= 200 * AnsweredCount(answers) + 15 < 30 * CalculateProgress(answers) + 30
  {
    RequiredCount();
  }

  /** All required questions are answered. */
  ghost predicate AllRequiredAnswered(answers: map<int, Value>)
  {
    forall i :: 0 <= i < |Catalog| && Catalog[i].required ==> IsAnswered(Lookup(answers, Catalog[i].id))
  }

  /** No required question is answered. */
  ghost predicate NoRequiredAnswered(answers: map<int, Value>)
  {
    forall i :: 0 <= i < |Catalog| && Catalog[i].required ==> !IsAnswered(Lookup(answers, Catalog[i].id))
  }

  /** The progress is 0% exactly when no required question is answered: a single answer
      already rounds to 7%. */
  lemma ProgressZero(answers: map<int, Value>)
    ensures CalculateProgress(answers) == 0 <==> NoRequiredAnswered(answers)
  {
    ProgressScale(answers);
    var p := AnsweredRequired(answers);
    if NoRequiredAnswered(answers) {
      FilterNone(p, Catalog);
    } else {
      var i :| 0 <= i < |Catalog| && Catalog[i].required && IsAnswered(Lookup(answers, Catalog[i].id));
      FilterKeeps(p, Catalog, Catalog[i]);
    }
  }

  /** The progress is 100% exactly when every required question is answered: 14 of 15
      rounds to 93%. */
  lemma ProgressComplete(answers: map<int, Value>)
    ensures CalculateProgress(answers) == 100 <==> AllRequiredAnswered(answers)
  {
    ProgressScale(answers);
    RequiredCount();
    FilterWeaker(AnsweredRequired(answers), Required, Catalog);
  }

  /** An unchecked checkbox stores `false`, which counts as an answer: a form whose required
      answers are all `false` is complete. */
  lemma FalseCountsAsAnswered(answers: map<int, Value>)
    requires forall i :: 0 <= i < |Catalog| && Catalog[i].required ==> Lookup(answers, Catalog[i].id) == Some(Bool(false))
    ensures CalculateProgress(answers) == 100
  {
    ProgressComplete(answers);
  }

  /** The progress reads only whether each required question is answered. */
  lemma ProgressOnlyRequired(a1: map<int, Value>, a2: map<int, Value>)
    requires forall i :: 0 <= i < |Catalog| && Catalog[i].required ==>
      (IsAnswered(Lookup(a1, Catalog[i].id)) <==> IsAnswered(Lookup(a2, Catalog[i].id)))
    ensures CalculateProgress(a1) == CalculateProgress(a2)
  {
    FilterCongruent(AnsweredRequired(a1), AnsweredRequired(a2), Catalog);
  }

  /** Answering, changing or re-answering a question that is not required leaves the
      progress as it was. */
  lemma OptionalAnswerKeepsProgress(answers: map<int, Value>, id: int, v: Value)
    requires forall i :: 0 <= i < |Catalog| && Catalog[i].id == id ==> !Catalog[i].required
    ensures CalculateProgress(answers[id := v]) == CalculateProgress(answers)
  {
    ProgressOnlyRequired(answers[id := v], answers);
  }

  /** Answering more required questions never lowers the progress. */
  lemma ProgressMonotone(a1: map<int, Value>, a2: map<int, Value>)
    requires forall i :: 0 <= i < |Catalog| && Catalog[i].required && IsAnswered(Lookup(a1, Catalog[i].id)) ==>
      IsAnswered(Lookup(a2, Catalog[i].id))
    ensures CalculateProgress(a1) <= CalculateProgress(a2)
  {
    FilterWeaker(AnsweredRequired(a1), AnsweredRequired(a2), Catalog);
    ProgressScale(a1);
    ProgressScale(a2);
  }
}
