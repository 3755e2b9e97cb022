/** The MCQ creation form: its option list (two to six options labelled A,
    B, C, … in order), the single-correct-answer radio, the submit checks,
    and the request it sends. */
module McqCreate {
  import opened Wrappers
  import opened Text
  import FormCascade
  import Questions
  import RequestBinding

  const Labels: string := "ABCDEF"

  /** `labels[i]`: undefined past "F". */
  function LabelAt(i: nat): (l: Option<string>)
    ensures l.Some? <==> i < 6
  {
    if i < 6 then Some([Labels[i]]) else None
  }

  datatype OptionEntry = OptionEntry(optionLabel: Option<string>, optionText: string, isCorrect: bool)

  /** Two to six options, the i-th labelled with the i-th letter. */
  predicate WellLabelled(opts: seq<OptionEntry>) {
    2 <= |opts| <= 6 && forall i :: 0 <= i < |opts| ==> opts[i].optionLabel == LabelAt(i)
  }

  /** The four empty options A–D the form starts with. */
  function InitialOptions(): (opts: seq<OptionEntry>)
    ensures |opts| == 4 && WellLabelled(opts)
    ensures forall i :: 0 <= i < |opts| ==> opts[i].optionText == "" && !opts[i].isCorrect
  {
    seq(4, i requires 0 <= i < 4 => OptionEntry(LabelAt(i), "", false))
  }

  /** `addOption`: an empty, incorrect option with the next letter, unless six are shown. */
  function AddOption(opts: seq<OptionEntry>): (r: seq<OptionEntry>)
    ensures |opts| >= 6 ==> r == opts
    ensures |opts| < 6 ==> |r| == |opts| + 1 && r[..|opts|] == opts
                           && r[|opts|] == OptionEntry(LabelAt(|opts|), "", false)
  {
    if |opts| >= 6 then opts else opts + [OptionEntry(LabelAt(|opts|), "", false)]
  }

  /** `options.filter((_, i) => i !== index)`. */
  function RemoveAt(opts: seq<OptionEntry>, index: int): (r: seq<OptionEntry>)
    ensures 0 <= index < |opts| ==> r == opts[..index] + opts[index + 1..]
    ensures !(0 <= index < |opts|) ==> r == opts
  {
    if 0 <= index < |opts| then opts[..index] + opts[index + 1..] else opts
  }

  /** Every option takes the letter of its position. */
  function Relabel(opts: seq<OptionEntry>): (r: seq<OptionEntry>)
    ensures |r| == |opts|
    ensures forall i :: 0 <= i < |r| ==> r[i] == opts[i].(optionLabel := LabelAt(i))
  {
    seq(|opts|, i requires 0 <= i < |opts| => opts[i].(optionLabel := LabelAt(i)))
  }

  /** `removeOption`: nothing at two options or fewer; otherwise the option
      goes and the rest are relabelled from A. */
  function RemoveOption(opts: seq<OptionEntry>, index: int): (r: seq<OptionEntry>)
    ensures |opts| <= 2 ==> r == opts
    ensures |opts| > 2 && 0 <= index < |opts| ==> |r| == |opts| - 1
    ensures |opts| > 2 && 0 <= index < |opts| ==>
              forall i :: 0 <= i < |r| ==> var src := if i < index then opts[i] else opts[i + 1];
                r[i].optionText == src.optionText && r[i].isCorrect == src.isCorrect
    ensures |opts| > 2 ==> forall i :: 0 <= i < |r| ==> r[i].optionLabel == LabelAt(i)
  {
    if |opts| <= 2 then opts else Relabel(RemoveAt(opts, index))
  }

  /** Adding and removing keep two to six options labelled in order. */
  lemma EditsKeepWellLabelled(opts: seq<OptionEntry>, index: int)
    requires WellLabelled(opts)
    ensures WellLabelled(AddOption(opts))
    ensures WellLabelled(RemoveOption(opts, index))
  {
  }

  /** Removing an option and adding one back gives the same number of
      options, still labelled in order. */
  lemma RemoveThenAdd(opts: seq<OptionEntry>, index: int)
    requires WellLabelled(opts) && |opts| > 2 && 0 <= index < |opts|
    ensures var r := AddOption(RemoveOption(opts, index)); |r| == |opts| && WellLabelled(r)
  {
  }

  /** `handleCorrectOption`: exactly the chosen option is correct; nothing else changes. */
  function HandleCorrectOption(opts: seq<OptionEntry>, index: int): (r: seq<OptionEntry>)
    ensures |r| == |opts|
    ensures forall i :: 0 <= i < |r| ==> r[i].isCorrect == (i == index)
    ensures forall i :: 0 <= i < |r| ==> r[i].optionLabel == opts[i].optionLabel && r[i].optionText == opts[i].optionText
  {
    seq(|opts|, i requires 0 <= i < |opts| => opts[i].(isCorrect := i == index))
  }

  /** `handleOptionChange` on the text field. */
  function ChangeOptionText(opts: seq<OptionEntry>, index: nat, text: string): (r: seq<OptionEntry>)
    requires index < |opts|
    ensures |r| == |opts| && r[index].optionText == text
    ensures r[index].optionLabel == opts[index].optionLabel && r[index].isCorrect == opts[index].isCorrect
    ensures forall i :: 0 <= i < |r| && i != index ==> r[i] == opts[i]
  {
    opts[index := opts[index].(optionText := text)]
  }

  /** The rest of the form: the cascade's picks and the question's own fields. */
  datatype McqForm = McqForm(picks: FormCascade.Picks, questionText: string, marks: int,
                             difficulty: string, language: string, explanation: string)

  /** The defaults: one mark, MEDIUM, Bangla, nothing picked or written. */
  const InitialForm: McqForm := McqForm(FormCascade.Picks("", "", "", ""), "", 1, "MEDIUM", "Bangla", "")

  datatype SubmitError =
    | MissingFields     // "Please fill all required fields."
    | NoCorrectAnswer   // "Please select a correct answer."
    | EmptyOptionText   // "All options must have text."

  predicate Filled(f: McqForm) {
    f.questionText != "" && f.picks.classId != "" && f.picks.subjectId != "" && f.picks.chapterId != ""
  }

  /** The request body of a passing submit. */
  datatype McqRequest = McqRequest(question: RequestBinding.QuestionBody, options: seq<RequestBinding.OptionBody>)

  /** The question object: the class, class-subject and chapter by id, an
      empty topic as null, the explanation always sent. */
  function QuestionBody(f: McqForm): (b: RequestBinding.QuestionBody)
    ensures b.refs == FormCascade.Refs(f.picks, "classSubject") && b.topic == FormCascade.TopicRef(f.picks)
    ensures b.questionText == f.questionText && b.marks == f.marks && b.explanation == Some(f.explanation)
  {
    RequestBinding.QuestionBody(f.questionText, f.marks, f.difficulty, f.language, Some(f.explanation),
                                FormCascade.Refs(f.picks, "classSubject"), FormCascade.TopicRef(f.picks))
  }

  /** The options as written on the wire, the flag under `key`. */
  function OptionBodies(opts: seq<OptionEntry>, key: string): (bs: seq<RequestBinding.OptionBody>)
    ensures |bs| == |opts|
    ensures forall i :: 0 <= i < |bs| ==>
              bs[i] == RequestBinding.OptionBody(opts[i].optionLabel, opts[i].optionText, key, opts[i].isCorrect)
  {
    seq(|opts|, i requires 0 <= i < |opts| =>
          RequestBinding.OptionBody(opts[i].optionLabel, opts[i].optionText, key, opts[i].isCorrect))
  }

  /** `handleSubmit` as written: the option objects carry the flag as `isCorrect`. */
  function SubmitAsWritten(f: McqForm, opts: seq<OptionEntry>): (r: Result<McqRequest, SubmitError>)
    ensures r.Ok? <==> Filled(f) && (exists i :: 0 <= i < |opts| && opts[i].isCorrect)
                       && forall i :: 0 <= i < |opts| ==> !IsBlank(opts[i].optionText)
    ensures r.Ok? ==> r.value.options == OptionBodies(opts, "isCorrect")
  {
    var _ :- Check(f, opts);
    Ok(McqRequest(QuestionBody(f), OptionBodies(opts, "isCorrect")))
  }

  /** Every request the form lets through is refused by the service: the
      flag is not bound, so no option arrives correct. */
  lemma AsWrittenAlwaysRefused(f: McqForm, opts: seq<OptionEntry>, st: Questions.Store,
                               newId: Questions.Id, optionIds: seq<Questions.Id>, context: Option<string>)
    requires SubmitAsWritten(f, opts).Ok? && |opts| >= 2
    requires newId !in st.questions && |optionIds| == |opts|
    ensures var req := SubmitAsWritten(f, opts).value;
            Questions.CreateMCQ(st, RequestBinding.BindQuestion(req.question), Questions.Unapproved, None,
                                Some(RequestBinding.BindOptions(req.options)), newId, optionIds, context)
            == Err(Questions.NotExactlyOneCorrect)
  {
    RequestBinding.BoundCorrectCount(OptionBodies(opts, "isCorrect"), "isCorrect");
  }

  /** The submit checks in order; the first that fails names the error. */
  function Check(f: McqForm, opts: seq<OptionEntry>): (r: Result<(), SubmitError>)
    ensures !Filled(f) ==> r == Err(MissingFields)
    ensures Filled(f) && (forall i :: 0 <= i < |opts| ==> !opts[i].isCorrect) ==> r == Err(NoCorrectAnswer)
    ensures (Filled(f) && (exists i :: 0 <= i < |opts| && opts[i].isCorrect)
             && (exists i :: 0 <= i < |opts| && IsBlank(opts[i].optionText))) ==> r == Err(EmptyOptionText)
    ensures r.Ok? <==> Filled(f) && (exists i :: 0 <= i < |opts| && opts[i].isCorrect)
                       && forall i :: 0 <= i < |opts| ==> !IsBlank(opts[i].optionText)
  {
    if !Filled(f) then Err(MissingFields)
    else if !(exists i :: 0 <= i < |opts| && opts[i].isCorrect) then Err(NoCorrectAnswer)
    else if exists i :: 0 <= i < |opts| && IsBlank(opts[i].optionText) then Err(EmptyOptionText)
    else Ok(())
  }

  /** `handleSubmit` with the flag sent under the name the entity binds. */
  function Submit(f: McqForm, opts: seq<OptionEntry>): (r: Result<McqRequest, SubmitError>)
    ensures r.Ok? <==> Check(f, opts).Ok?
    ensures r.Err? ==> r.error == Check(f, opts).error
    ensures r.Ok? ==> r.value.question == QuestionBody(f) && r.value.options == OptionBodies(opts, RequestBinding.CorrectKey)
  {
    var _ :- Check(f, opts);
    Ok(McqRequest(QuestionBody(f), OptionBodies(opts, RequestBinding.CorrectKey)))
  }

  /** With the flag bound, a form whose answer was chosen with the radio is
      accepted by the service, with the picked class-subject and chapter. */
  lemma RadioChoiceAccepted(f: McqForm, opts0: seq<OptionEntry>, k: nat, st: Questions.Store,
                            newId: Questions.Id, optionIds: seq<Questions.Id>, context: Option<string>)
    requires Filled(f) && WellLabelled(opts0) && k < |opts0|
    requires forall i :: 0 <= i < |opts0| ==> !IsBlank(opts0[i].optionText)
    requires newId !in st.questions && |optionIds| == |opts0|
    ensures var opts := HandleCorrectOption(opts0, k);
            var r := Submit(f, opts);
            && r.Ok?
            && var content := RequestBinding.BindQuestion(r.value.question);
            && content.classSubject == Some(f.picks.subjectId) && content.chapter == Some(f.picks.chapterId)
            && Questions.CreateMCQ(st, content, Questions.Unapproved, None, Some(RequestBinding.BindOptions(r.value.options)),
                                   newId, optionIds, context).Ok?
  {
    var opts := HandleCorrectOption(opts0, k);
    assert opts[k].isCorrect;
    var bound := RequestBinding.BindOptions(Submit(f, opts).value.options);
    assert forall i :: 0 <= i < |bound| ==> bound[i].correct == (i == k);
    Questions.CorrectCountOne(bound, k);
  }
}
