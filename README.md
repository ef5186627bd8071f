# Client-intake questionnaire: a verified model

This project models the decision logic of the client-intake questionnaire in two parts.

- **The question catalog** (`questionnaire-data.ts`). It holds 58 questions in 8
  categories. Each question has an id, a category, a required flag and an optional rule
  that shows it only for certain answers to an earlier question. The helpers around the
  catalog are:
  - `shouldShowQuestion`, which decides visibility;
  - `getQuestionsByCategory`, the category filter;
  - `calculateProgress`, the rounded percentage of required questions answered.
- **The form session of the questionnaire page** (`page.tsx`). Its state is the answers
  (`formData`), the index of the current section and the error messages. From the answers
  it derives the visible questions, the list of sections and the questions of the current
  section. Its operations are:
  - section validation;
  - the *next* and *back* handlers;
  - the input and file handlers;
  - the validation gate in front of submission.

Module layout:

- `values.dfy` (`Values`): answer values and JavaScript truthiness.
  - A value is a string, a whole number or a boolean. An absent answer is `None`, where
    JavaScript has `undefined`.
  - `Truthy` is JavaScript's `!!x`. It is false for an absent answer, `""`, `0` and
    `false`, so the string `"0"` is truthy.
- `seqs.dfy` (`Seqs`): the two array idioms the code is built from.
  - `Filter` models `Array.prototype.filter`.
  - `Distinct` models `Array.from(new Set(xs))`, which keeps the first occurrence of each
    element.
- `questionnaire_data.dfy` (`QuestionnaireData`): the catalog, visibility, the category
  filter, progress, and what the catalog guarantees.
  - A conditional rule is a tagged variant, because `showWhen` is one of three kinds:
    - `Equals`: a literal compared with `===`;
    - `OneOf`: a list tested with `includes`;
    - `Pred`: a function applied to the answer.
  - The catalog is written as eight per-category blocks concatenated in source order.
- `form_session.dfy` (`FormSession`): the page's derived views and validation as
  functions, and the class `QuestionnairePage`.
  - The class has fields `formData`, `currentSection` and `errors`.
  - The handlers are methods that update these fields.
  - `CollectErrors` fills the new error map in a loop over the section's questions, as
    the `forEach` of `validateSection` does; `ValidateSection` stores the result.

The page reads its questions from a catalog module that is not part of this model, so
`QuestionnairePage` takes that list as a constructor argument. Each question carries:

- a `condition` over the answer it depends on, as an arbitrary function;
- an optional validation rule, as an arbitrary function from an answer to a `ParseResult`.
  This mirrors what a schema's `safeParse` reports: success, or failure with its issue
  messages in order.

### Behaviour of the code worth knowing

- **A changed answer's error is blanked, not removed.** `handleInputChange` stores `""`
  under the question's id, and only when the stored error is non-empty (page.tsx:58-60).
  The key stays in the map.
- **The required check uses truthiness.** `validateSection` tests `!formData[q.id]`, so
  the answers `0` and `false` also get the required message. `calculateProgress` counts
  everything except `undefined` and `''` as answered. So an unchecked checkbox stored as
  `false` counts toward progress (`FalseCountsAsAnswered`) but fails the page's required
  check (`QuestionErrorSpec`).
- **Submission is not limited to the last section by `handleSubmit`.** The page renders
  the submit button instead of the next button whenever `currentSection >= sections.length - 1`
  (page.tsx:392), which includes an index past the end of `sections`. `handleSubmit` itself
  validates the current section, whichever it is. `HandleSubmit` models exactly that. Past
  the end, the current section has no questions, so validation passes with nothing checked.
  The index can get there when an answer hides a whole section before it, which takes a
  question that depends on a later one.
- **A file choice does not clear errors.** `handleFileChange` leaves a shown error in
  place, unlike an input change.

## Model

| member | source | states |
|---|---|---|
| Values.Truthy | page.tsx:74 | JavaScript's `!!x`: an answer is truthy iff it is present and is not `""`, `0` or `false` |
| Values.Lookup | questionnaire-data.ts:757 | reading an answer yields a value exactly when the key is present, and then the stored value |
| Seqs.FilterSpec | questionnaire-data.ts:746 | `filter` keeps the original order and keeps exactly the elements that satisfy the test, each as many times as it occurs |
| Seqs.FilterWeaker | questionnaire-data.ts:772-776 | a test that implies another keeps no more elements, and keeps as many only if the two agree on every element |
| Seqs.DistinctSpec | page.tsx:23 | the de-duplicated list has no repeats and lists elements in the order of their first occurrence |
| Seqs.Distinct | page.tsx:23 | every element of the result occurs in the input, and every input element occurs in the result |
| QuestionnaireData.GreaterThanZero | questionnaire-data.ts:328 | `value > 0` after conversion to a number: false for an absent answer; a number must be positive; `true` passes and `false` fails; a string passes iff it is a run of decimal digits denoting a positive number |
| QuestionnaireData.DecimalPositive | questionnaire-data.ts:328 | a run of decimal digits denotes a positive number iff one of its digits is not zero |
| QuestionnaireData.ShouldShow | questionnaire-data.ts:750-768 | a question without a rule is always shown; a question with a literal or list rule is hidden while the answer it depends on is absent |
| QuestionnaireData.Includes | questionnaire-data.ts:763-765 | `includes` holds exactly when the answer is present and equals a listed value |
| QuestionnaireData.ShouldShowSpec | questionnaire-data.ts:750-768 | a question without a rule is always shown; with a literal, shown iff the answer is present and equal to it; with a list, iff the answer is present and listed; with a function, iff the function accepts the (possibly absent) answer |
| QuestionnaireData.ShouldShowLocal | questionnaire-data.ts:756-757 | visibility depends only on the answer to the question depended on |
| QuestionnaireData.AbsentDependencyHidesLiteralRule | questionnaire-data.ts:763-767 | with a literal or list rule, a question is hidden while its dependency is unanswered |
| QuestionnaireData.PersonalBlock | questionnaire-data.ts:42-160 | questions 1-10 are numbered consecutively, all "personal", all required |
| QuestionnaireData.EmploymentBlock | questionnaire-data.ts:165-270 | questions 11-18 are "employment", only 11 is required, every rule names an earlier question, hides its question while unanswered and hides it for "not employed" |
| QuestionnaireData.FamilyBlock | questionnaire-data.ts:275-350 | questions 19-24 are "family" and optional; every rule names an earlier question and hides its question while that one is unanswered |
| QuestionnaireData.FinancialBlock | questionnaire-data.ts:355-440 | questions 25-31 are "financial" and optional; every rule names an earlier question and hides its question while that one is unanswered |
| QuestionnaireData.InsuranceBlock | questionnaire-data.ts:445-529 | questions 32-39 are "insurance", only 32 is required; every rule names an earlier question and hides its question while that one is unanswered |
| QuestionnaireData.HealthBlock | questionnaire-data.ts:534-640 | questions 40-49 are "health" and optional; every rule names an earlier question and hides its question while that one is unanswered |
| QuestionnaireData.PreferencesBlock | questionnaire-data.ts:645-702 | questions 50-54 are "preferences" and optional |
| QuestionnaireData.ConsentsBlock | questionnaire-data.ts:707-741 | questions 55-58 are "consents", exactly 56-58 are required |
| QuestionnaireData.CatalogLayout | questionnaire-data.ts:42-742 | the eight blocks have the sizes 10/8/6/7/8/10/5/4, consecutive ids from 1, one category each, and their required runs |
| QuestionnaireData.CatalogIds | questionnaire-data.ts:42-742 | the catalog has 58 questions with ids 1..58 in order, so ids are unique and strictly increasing |
| QuestionnaireData.CatalogDependenciesPrecede | questionnaire-data.ts:42-742 | every conditional question depends on a question earlier in the list |
| QuestionnaireData.CatalogAbsentDependencyHides | questionnaire-data.ts:42-742 | every conditional question of the catalog, including question 22's predicate, is hidden while its dependency is unanswered |
| QuestionnaireData.NotEmployedHidesEmploymentDetails | questionnaire-data.ts:171 | answering question 11 with "not employed" hides every question that depends on question 11 |
| QuestionnaireData.GetQuestionsByCategory | questionnaire-data.ts:745-747 | every question found has the requested category, and there are no more than the catalog holds |
| QuestionnaireData.GetQuestionsByCategorySpec | questionnaire-data.ts:745-747 | the result keeps catalog order and holds exactly the catalog questions of that category |
| QuestionnaireData.CategoryBlocks | questionnaire-data.ts:745-747 | each category key selects exactly its own block of the catalog; any other string selects nothing |
| QuestionnaireData.CategoryCounts | questionnaire-data.ts:31-38 | each category holds the number of questions that `questionnaireConfig` declares for it, and the declared counts total the 58 questions |
| QuestionnaireData.RequiredCount | questionnaire-data.ts:776 | there are 15 required questions |
| QuestionnaireData.RoundHalfUp | questionnaire-data.ts:778 | the result is the nearest whole number to the quotient, halves rounded up, as `Math.round` does for non-negative values |
| QuestionnaireData.CalculateProgress | questionnaire-data.ts:771-779 | the percentage never exceeds 100 |
| QuestionnaireData.AnsweredCount | questionnaire-data.ts:772-774 | at most 15 required questions can be answered |
| QuestionnaireData.ProgressScale | questionnaire-data.ts:778 | the percentage is the answered count times 100/15, rounded to the nearest whole number |
| QuestionnaireData.ProgressZero | questionnaire-data.ts:771-779 | the progress is 0 exactly when no required question is answered |
| QuestionnaireData.ProgressComplete | questionnaire-data.ts:771-779 | the progress is 100 exactly when every required question is answered |
| QuestionnaireData.FalseCountsAsAnswered | questionnaire-data.ts:773 | `false` counts as an answer: required answers that are all `false` give 100 |
| QuestionnaireData.ProgressOnlyRequired | questionnaire-data.ts:772-774 | two answer sets that agree on which required questions are answered give the same progress |
| QuestionnaireData.OptionalAnswerKeepsProgress | questionnaire-data.ts:772-774 | setting the answer to a question that is not required never changes the progress |
| QuestionnaireData.ProgressMonotone | questionnaire-data.ts:771-779 | answering more required questions never lowers the progress |
| FormSession.Visible | page.tsx:16-20 | no more questions than listed, and every visible conditional question has its condition accepted by the current answer |
| FormSession.VisibleSpec | page.tsx:16-20 | visible questions are an order-preserving subsequence of the questions, contain every unconditional question, and contain a conditional one iff its condition accepts the answer it depends on; a question listed several times is kept as many times when visible |
| FormSession.VisibleIgnoresUnreferenced | page.tsx:16-20 | changing an answer that no condition reads leaves the visible questions unchanged |
| FormSession.SectionsOf | page.tsx:23 | every section is the section of some visible question, and every visible question's section is listed |
| FormSession.SectionsSpec | page.tsx:23 | sections have no duplicates, follow first-occurrence order, and are exactly the sections of the visible questions |
| FormSession.InSection | page.tsx:24-26 | every question returned belongs to the current section, which exists, and there are no more than the visible ones |
| FormSession.InSectionSpec | page.tsx:24-26 | the current section's questions are, in order, exactly the visible questions of that section, each as many times as it is listed; none past the last section; at least one for every existing section |
| FormSession.FailureMessage | page.tsx:82 | a failed rule reports its first message when there is a non-empty one, and otherwise `'ערך לא תקין'` |
| FormSession.QuestionError | page.tsx:73-84 | an error message is never empty; a required question passes only with a truthy answer; with a falsy answer there is an error iff the question is required |
| FormSession.QuestionErrorSpec | page.tsx:73-84 | required and falsy gives the required message whatever the rule; optional and falsy gives no error; a truthy answer fails iff its rule rejects it, with the rule's message; no error message is empty |
| FormSession.SectionErrors | page.tsx:71-85 | every message stored in the section's error map is non-empty, so the page displays it |
| FormSession.SectionErrorsKeys | page.tsx:70-85 | an id has an error exactly when some question of the section with that id has one |
| FormSession.SectionErrorsLast | page.tsx:73-85 | the error stored under an id is the one from the last question with that id that produced an error |
| FormSession.SectionErrorsEmpty | page.tsx:87-88 | validation passes iff no question has an error; then every required question of the section has a truthy answer |
| FormSession.QuestionnairePage.constructor | page.tsx:10-12 | a session starts with no answers, on the first section, with no errors |
| FormSession.CollectErrors | page.tsx:71-85 | the loop builds exactly the section's error map: an id is a key iff some question with that id has an error, and the map is empty iff no question has one |
| FormSession.QuestionnairePage.ValidateSection | page.tsx:70-89 | the error map is replaced by the current section's errors; answers and section are unchanged; the result is true iff there are no errors |
| FormSession.QuestionnairePage.HandleNext | page.tsx:91-98 | validates; advances by exactly one iff validation passes and a later section exists; keeps the index in range; leaving a section implies its required questions are answered |
| FormSession.QuestionnairePage.HandleBack | page.tsx:100-105 | steps back by one iff not on the first section; never validates; answers and errors unchanged; keeps the index in range |
| FormSession.QuestionnairePage.HandleInputChange | page.tsx:56-61 | stores the answer under its id and keeps every other answer; blanks that id's error iff it was non-empty; keeps every other error and the section |
| FormSession.QuestionnairePage.HandleFileChange | page.tsx:63-68 | stores the chosen file's name, or changes nothing when no file was chosen; errors and section unchanged |
| FormSession.QuestionnairePage.HandleSubmit | page.tsx:107-108 | a submission is attempted iff the current section validates; then every required question of the section is answered |

## Left out

- **BMI recomputation** (page.tsx:48-54): floating-point division and `toFixed(1)`.
- **The progress-bar width** (page.tsx:188): floating-point arithmetic.
- **Draft load and auto-save** (page.tsx:29-45): these go through `localStorage` and
  `JSON.parse`/`JSON.stringify`, which are I/O and a foreign parser.
- **The rest of submission** (page.tsx:110-185):
  - the Supabase insert and its field renaming;
  - the `Number(...)` and `JSON.parse` coercions;
  - `router.push`, `alert` and the `isSubmitting` flag.

  These are network and foreign calls. `HandleSubmit` models only the validation gate,
  returning whether the submission would be attempted.
- **UI** (page.tsx:190-421): `renderField`, the markup, `window.scrollTo` and button
  enabling.
- **The page's own catalog** (`@/lib/questions`) is not part of this model. Its conditions
  and `safeParse` rules are arbitrary functions.
- **Presentation data**: question text, type, placeholder, help text, options, the
  `min`/`max`/`pattern` validation data and the configuration's title and icons. No
  modelled code reads them.
- **Fractional numbers and NaN**: answer values are strings, whole numbers and booleans
  only.
- GreaterThanZero: question 22's rule converts a string answer to a number only when the
  string is a run of decimal digits. JavaScript's handling of surrounding whitespace, signs,
  a decimal point, exponent notation (`"1e3"`), `"Infinity"` and hexadecimal, binary and
  octal prefixes (`"0x1"`, `"0b1"`, `"0o7"`) in such strings is not modelled.
- CalculateProgress: `Math.round` is modelled as exact rounding of a rational number. There
  are 15 required questions, so the quotient never lands on a half and the floating-point
  error of `answered / 15 * 100` cannot move the result across a rounding boundary.
- **React's batching of state updates.** Each handler is modelled as one atomic update of
  the page state.
