/** The short-question form: the question text, marks, a sample answer
    sent as the explanation, and the class → subject → chapter → topic
    picks of the shared cascade. */
module ShortQuestionCreate {
  import opened Wrappers
  import FormCascade
  import AcademicListing
  import Questions
  import RequestBinding

  datatype ShortForm = ShortForm(picks: FormCascade.Picks, questionText: string, marks: int,
                                 difficulty: string, language: string, explanation: string)

  /** The defaults: two marks, MEDIUM, Bangla, no sample answer, nothing picked. */
  const InitialForm: ShortForm := ShortForm(FormCascade.Picks("", "", "", ""), "", 2, "MEDIUM", "Bangla", "")

  datatype SubmitError = MissingFields   // "Please fill all required fields."

  /** Text, class, subject and chapter are required; the topic is not. */
  predicate Filled(f: ShortForm) {
    f.questionText != "" && f.picks.classId != "" && f.picks.subjectId != "" && f.picks.chapterId != ""
  }

  /** A cascade handler applied to the form's picks. */
  function WithPicks(f: ShortForm, c: FormCascade.Cascade): (g: ShortForm)
    ensures g.picks == c.picks
    ensures g.(picks := f.picks) == f
  {
    f.(picks := c.picks)
  }

  /** The payload, with the class-subject under `subjectKey`; the sample
      answer is always sent. */
  function Body(f: ShortForm, subjectKey: string): (b: RequestBinding.QuestionBody)
    requires subjectKey != "academicClass" && subjectKey != "chapter"
    ensures b.questionText == f.questionText && b.marks == f.marks && b.explanation == Some(f.explanation)
    ensures b.difficulty == f.difficulty && b.language == f.language
    ensures b.refs == FormCascade.Refs(f.picks, subjectKey) && b.topic == FormCascade.TopicRef(f.picks)
  {
    RequestBinding.QuestionBody(f.questionText, f.marks, f.difficulty, f.language, Some(f.explanation),
                                FormCascade.Refs(f.picks, subjectKey), FormCascade.TopicRef(f.picks))
  }

  /** `handleSubmit` with the class-subject sent under `subjectKey`: the
      required-fields check, then the payload. */
  function SubmitUnder(f: ShortForm, subjectKey: string): (r: Result<RequestBinding.QuestionBody, SubmitError>)
    requires subjectKey != "academicClass" && subjectKey != "chapter"
    ensures r.Ok? <==> Filled(f)
    ensures r.Ok? ==> r.value == Body(f, subjectKey)
  {
    if !Filled(f) then Err(MissingFields) else Ok(Body(f, subjectKey))
  }

  /** `handleSubmit` as written: the class-subject goes under `subject`,
      and no `classSubject` key is sent. */
  function SubmitAsWritten(f: ShortForm): (r: Result<RequestBinding.QuestionBody, SubmitError>)
    ensures r.Ok? <==> Filled(f)
    ensures r.Ok? ==> r.value == Body(f, "subject") && "classSubject" !in r.value.refs
  {
    SubmitUnder(f, "subject")
  }

  /** A question created from the form as written has no class-subject,
      whatever subject was picked. */
  lemma AsWrittenLosesClassSubject(f: ShortForm, st: Questions.Store, newId: Questions.Id, context: Option<string>)
    requires SubmitAsWritten(f).Ok? && newId !in st.questions
    ensures Questions.CreateShortQuestion(st, RequestBinding.BindQuestion(SubmitAsWritten(f).value), Questions.Unapproved, None, newId, context)
              .questions[newId].content.classSubject.None?
  {
  }

  /** `handleSubmit` with the class-subject under the entity's field name. */
  function Submit(f: ShortForm): (r: Result<RequestBinding.QuestionBody, SubmitError>)
    ensures r.Ok? <==> Filled(f)
    ensures r.Ok? ==> r.value == Body(f, "classSubject") && r.value.refs["classSubject"] == f.picks.subjectId
  {
    SubmitUnder(f, "classSubject")
  }

  /** The stored short question carries every field of the form: the picked
      class-subject, chapter and topic, the text, marks and sample answer. */
  lemma SubmittedQuestionStored(f: ShortForm, st: Questions.Store, newId: Questions.Id, context: Option<string>)
    requires Submit(f).Ok? && newId !in st.questions
    ensures var q := Questions.CreateShortQuestion(st, RequestBinding.BindQuestion(Submit(f).value), Questions.Unapproved, None, newId, context)
                       .questions[newId];
            && q.content.classSubject == Some(f.picks.subjectId) && q.content.chapter == Some(f.picks.chapterId)
            && q.content.topic == FormCascade.TopicRef(f.picks)
            && q.content.questionText == f.questionText && q.content.marks == f.marks
            && q.content.explanation == Some(f.explanation)
            && q.qtype == Questions.Short && q.status == Questions.Pending
  {
  }

  /** The initial form cannot be submitted, and changing the class clears
      the subject and chapter, so the form must be completed again. */
  lemma ClassChangeNeedsRepick(f: ShortForm, c: FormCascade.Cascade, classId: string, fetched: seq<string>)
    ensures Submit(InitialForm).Err?
    ensures Submit(WithPicks(f, FormCascade.ChangeClass(c, classId, fetched))).Err?
    ensures Submit(WithPicks(f, FormCascade.ChangeSubject(c, "", fetched))).Err?
  {
  }

  /** As written the form can never be sent: a subject chosen from the
      select leaves the subject pick empty, so the required-fields check
      refuses the form whatever else is filled. */
  lemma AsWrittenSubjectBlocksSubmit(f: ShortForm, c: FormCascade.Cascade, classId: string,
                                     rows: seq<AcademicListing.ClassSubjectRow>, i: nat)
    requires classId != "" && i < |rows|
    ensures var c1 := FormCascade.ChangeClass(c, classId, AcademicListing.SubjectOptionsAsWritten(rows, AcademicListing.NameLabel));
            var g := f.(picks := FormCascade.ChangeSubjectAsWritten(c1, c1.lists.subjects[i]).picks);
            SubmitAsWritten(g) == Err(MissingFields) && Submit(g) == Err(MissingFields)
  {
    FormCascade.AsWrittenSubjectNeverPicked(c, classId, rows, i);
  }
}
