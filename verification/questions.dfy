/** `QuestionServiceImpl`: authoring and review of questions. A question
    and its options are rows of two tables; options point at their question.
    Every saved row gets its tenant from `Tenancy.PrePersist` with the
    request's tenant context. The fields the service copies untouched
    (text, marks, difficulty, language, academic mapping, ...) travel as one
    `Content` value. */
module Questions {
  import opened Wrappers
  import Tenancy

  type Id = string

  datatype QuestionType = MCQ | CQ | Short | TrueFalse
  datatype QuestionStatus = Draft | Pending | Approved | Rejected

  /** What the author submits and the service saves as given. */
  datatype Content = Content(
    questionText: string, difficulty: string, marks: int, language: string,
    explanation: Option<string>, classSubject: Option<Id>, chapter: Option<Id>, topic: Option<Id>)

  datatype Question = Question(
    qtype: QuestionType, status: QuestionStatus, content: Content,
    approvedBy: Option<string>, approvedAt: Option<int>, tenantId: string)

  /** An option as submitted: the label (None when the body leaves it out,
      which Java holds as null), the text, the flag, and the tenant id the
      client may have set. */
  datatype OptionInput = OptionInput(optionLabel: Option<string>, optionText: string, correct: bool, tenantId: Option<string>)

  datatype OptionRow = OptionRow(question: Id, optionLabel: string, optionText: string, correct: bool, tenantId: string)

  /** The approver and approval time a create body may carry: the entity
      has setters for both, so the request binds them like any other
      property, and the create services save them as bound. */
  datatype Approval = Approval(approvedBy: Option<string>, approvedAt: Option<int>)

  /** A body without approver fields, as every page sends. */
  const Unapproved: Approval := Approval(None, None)

  datatype Store = Store(questions: map<Id, Question>, options: map<Id, OptionRow>)

  /** Every option belongs to a stored question. */
  predicate Consistent(st: Store) {
    forall o :: o in st.options ==> st.options[o].question in st.questions
  }

  datatype QuestionError =
    | TooFewOptions          // "MCQ must have at least 2 options."
    | NotExactlyOneCorrect   // "MCQ must have exactly one correct answer."
    | QuestionNotFound       // "Question not found"
    | OptionLabelMissing     // the NOT NULL `option_label` refuses an option saved without one

  /** The number of options marked correct. */
  function CorrectCount(options: seq<OptionInput>): (n: nat)
    ensures n <= |options|
    ensures n == 0 <==> forall i :: 0 <= i < |options| ==> !options[i].correct
  {
    if |options| == 0 then 0
    else (if options[0].correct then 1 else 0) + CorrectCount(options[1..])
  }

  /** Exactly one option, the one at `k`, is correct. */
  lemma {:induction false} CorrectCountOne(options: seq<OptionInput>, k: nat)
    requires k < |options| && options[k].correct
    requires forall i :: 0 <= i < |options| && i != k ==> !options[i].correct
    ensures CorrectCount(options) == 1
  {
    if k > 0 {
      CorrectCountOne(options[1..], k - 1);
    } else {
      assert forall i :: 0 <= i < |options[1..]| ==> !options[1..][i].correct by {
        forall i | 0 <= i < |options[1..]| ensures !options[1..][i].correct {
          assert options[1..][i] == options[i + 1];
        }
      }
    }
  }

  /** The option at `k` is the only correct one. */
  predicate OnlyCorrectAt(options: seq<OptionInput>, k: int) {
    0 <= k < |options| && options[k].correct
    && forall i :: 0 <= i < |options| && i != k ==> !options[i].correct
  }

  /** A count of one means some option is correct and every other is not. */
  lemma {:induction false} CorrectCountOneInverse(options: seq<OptionInput>)
    requires CorrectCount(options) == 1
    ensures exists k :: 0 <= k < |options| && options[k].correct
              && forall i :: 0 <= i < |options| && i != k ==> !options[i].correct
  {
    var k := OnlyCorrectIndex(options);
    assert OnlyCorrectAt(options, k);
  }

  /** The index `CorrectCountOneInverse` finds. */
  lemma {:induction false} OnlyCorrectIndex(options: seq<OptionInput>) returns (k: nat)
    requires CorrectCount(options) == 1
    ensures OnlyCorrectAt(options, k)
  {
    var tail := options[1..];
    if options[0].correct {
      assert CorrectCount(tail) == 0;
      k := 0;
      forall i | 0 < i < |options| ensures !options[i].correct {
        assert options[i] == tail[i - 1];
      }
    } else {
      var j := OnlyCorrectIndex(tail);
      k := j + 1;
      forall i | 0 < i < |options| && i != k ensures !options[i].correct {
        assert options[i] == tail[i - 1];
      }
    }
  }

  /** The question a create saves: the body as bound, with the type and the
      PENDING status set over it. */
  function NewQuestion(qtype: QuestionType, content: Content, sent: Approval, tenantId: Option<string>,
                       context: Option<string>): (q: Question)
    ensures q.qtype == qtype && q.status == Pending && q.content == content
    ensures q.approvedBy == sent.approvedBy && q.approvedAt == sent.approvedAt
    ensures q.tenantId == Tenancy.PrePersist(tenantId, context)
  {
    Question(qtype, Pending, content, sent.approvedBy, sent.approvedAt, Tenancy.PrePersist(tenantId, context))
  }

  /** Every option carries a label. */
  predicate Labelled(inputs: seq<OptionInput>) {
    forall i :: 0 <= i < |inputs| ==> inputs[i].optionLabel.Some?
  }

  /** The options saved for a new MCQ, the `i`-th under `ids[i]`. */
  function SaveOptions(options: map<Id, OptionRow>, question: Id, inputs: seq<OptionInput>, ids: seq<Id>,
                       context: Option<string>): (r: map<Id, OptionRow>)
    requires |ids| == |inputs| && Labelled(inputs)
    ensures r.Keys == options.Keys + (set i | 0 <= i < |ids| :: ids[i])
    ensures forall o :: o in options && o !in ids ==> r[o] == options[o]
    decreases |inputs|
  {
    if |inputs| == 0 then options
    else
      var in0 := inputs[0];
      var row := OptionRow(question, in0.optionLabel.value, in0.optionText, in0.correct, Tenancy.PrePersist(in0.tenantId, context));
      SaveOptions(options[ids[0] := row], question, inputs[1..], ids[1..], context)
  }

  /** `createMCQ`: validation first, then the question (type MCQ, status
      PENDING), then each option pointing at it. An option without a label
      fails its save, and the transaction takes the question back too. */
  function CreateMCQ(st: Store, content: Content, sent: Approval, tenantId: Option<string>,
                     options: Option<seq<OptionInput>>, newId: Id, optionIds: seq<Id>, context: Option<string>)
    : (r: Result<Store, QuestionError>)
    requires newId !in st.questions
    requires options.Some? ==> |optionIds| == |options.value|
    ensures r.Ok? <==> options.Some? && |options.value| >= 2 && CorrectCount(options.value) == 1
                       && Labelled(options.value)
    ensures (options.None? || |options.value| < 2) ==> r == Err(TooFewOptions)
    ensures options.Some? && |options.value| >= 2 && CorrectCount(options.value) != 1 ==> r == Err(NotExactlyOneCorrect)
    ensures r.Ok? ==> r.value.questions.Keys == st.questions.Keys + {newId}
    ensures r.Ok? ==> forall id :: id in st.questions ==> r.value.questions[id] == st.questions[id]
    ensures r.Ok? && newId in r.value.questions ==> var q := r.value.questions[newId];
              && q.qtype == MCQ && q.status == Pending && q.content == content
              && q.approvedBy == sent.approvedBy && q.approvedAt == sent.approvedAt
    ensures r.Ok? ==> r.value.options.Keys == st.options.Keys + (set i | 0 <= i < |optionIds| :: optionIds[i])
  {
    if options.None? || |options.value| < 2 then Err(TooFewOptions)
    else if CorrectCount(options.value) != 1 then Err(NotExactlyOneCorrect)
    else if !Labelled(options.value) then Err(OptionLabelMissing)
    else
      Ok(Store(st.questions[newId := NewQuestion(MCQ, content, sent, tenantId, context)],
               SaveOptions(st.options, newId, options.value, optionIds, context)))
  }

  /** `createShortQuestion`: the body as bound, typed SHORT and PENDING. */
  function CreateShortQuestion(st: Store, content: Content, sent: Approval, tenantId: Option<string>, newId: Id,
                               context: Option<string>): (st2: Store)
    requires newId !in st.questions
    ensures st2.options == st.options && st2.questions.Keys == st.questions.Keys + {newId}
    ensures forall id :: id in st.questions ==> st2.questions[id] == st.questions[id]
    ensures st2.questions[newId].qtype == Short && st2.questions[newId].status == Pending
    ensures st2.questions[newId].content == content
    ensures st2.questions[newId].approvedBy == sent.approvedBy && st2.questions[newId].approvedAt == sent.approvedAt
  {
    st.(questions := st.questions[newId := NewQuestion(Short, content, sent, tenantId, context)])
  }

  /** `createCQ`: the marks and the assembled text are stored as sent. */
  function CreateCQ(st: Store, content: Content, sent: Approval, tenantId: Option<string>, newId: Id,
                    context: Option<string>): (st2: Store)
    requires newId !in st.questions
    ensures st2.options == st.options && st2.questions.Keys == st.questions.Keys + {newId}
    ensures forall id :: id in st.questions ==> st2.questions[id] == st.questions[id]
    ensures st2.questions[newId].qtype == CQ && st2.questions[newId].status == Pending
    ensures st2.questions[newId].content == content
    ensures st2.questions[newId].approvedBy == sent.approvedBy && st2.questions[newId].approvedAt == sent.approvedAt
  {
    st.(questions := st.questions[newId := NewQuestion(CQ, content, sent, tenantId, context)])
  }

  function GetQuestion(st: Store, id: Id): (r: Result<Question, QuestionError>)
    ensures r.Ok? <==> id in st.questions
    ensures r.Ok? ==> r.value == st.questions[id]
  {
    if id in st.questions then Ok(st.questions[id]) else Err(QuestionNotFound)
  }

  /** `getOptions`. */
  function OptionsOf(st: Store, question: Id): (ids: set<Id>)
    ensures forall o :: o in ids <==> o in st.options && st.options[o].question == question
  {
    set o | o in st.options && st.options[o].question == question
  }

  /** `deleteQuestion`: the question's options, then the question; an unknown id deletes nothing. */
  function DeleteQuestion(st: Store, id: Id): (st2: Store)
    ensures st2.questions.Keys == st.questions.Keys - {id}
    ensures forall q :: q in st2.questions ==> st2.questions[q] == st.questions[q]
    ensures forall o :: o in st2.options <==> o in st.options && st.options[o].question != id
    ensures forall o :: o in st2.options ==> st2.options[o] == st.options[o]
    ensures Consistent(st) ==> Consistent(st2)
  {
    Store(st.questions - {id}, map o | o in st.options && st.options[o].question != id :: st.options[o])
  }

  /** `approveQuestion`: status APPROVED with the approver and the time. */
  function ApproveQuestion(st: Store, id: Id, approverId: string, now: int): (r: Result<Store, QuestionError>)
    ensures r.Err? <==> id !in st.questions
    ensures r.Ok? ==> r.value.questions == st.questions[id := st.questions[id].(status := Approved, approvedBy := Some(approverId), approvedAt := Some(now))]
                      && r.value.options == st.options
  {
    var q :- GetQuestion(st, id);
    Ok(st.(questions := st.questions[id := q.(status := Approved, approvedBy := Some(approverId), approvedAt := Some(now))]))
  }

  /** `rejectQuestion`: status REJECTED, nothing else. */
  function RejectQuestion(st: Store, id: Id): (r: Result<Store, QuestionError>)
    ensures r.Err? <==> id !in st.questions
    ensures r.Ok? ==> r.value.questions == st.questions[id := st.questions[id].(status := Rejected)]
                      && r.value.options == st.options
  {
    var q :- GetQuestion(st, id);
    Ok(st.(questions := st.questions[id := q.(status := Rejected)]))
  }

  /** Review decisions only touch the question rows, so options keep
      pointing at stored questions. */
  lemma ReviewKeepsConsistent(st: Store, id: Id, approverId: string, now: int)
    requires Consistent(st)
    ensures ApproveQuestion(st, id, approverId, now).Ok? ==> Consistent(ApproveQuestion(st, id, approverId, now).value)
    ensures RejectQuestion(st, id).Ok? ==> Consistent(RejectQuestion(st, id).value)
  {
  }

  /** The later review decides the status. A rejection keeps the approver
      and time of an earlier approval, and an approval overwrites whatever
      a rejection left. */
  lemma LaterReviewDecides(st: Store, id: Id, approverId: string, now: int)
    requires id in st.questions
    ensures var q := RejectQuestion(ApproveQuestion(st, id, approverId, now).value, id).value.questions[id];
            q.status == Rejected && q.approvedBy == Some(approverId) && q.approvedAt == Some(now)
    ensures ApproveQuestion(RejectQuestion(st, id).value, id, approverId, now) == ApproveQuestion(st, id, approverId, now)
  {
    var rejected := RejectQuestion(st, id).value;
    assert ApproveQuestion(rejected, id, approverId, now).value.questions
           == ApproveQuestion(st, id, approverId, now).value.questions;
  }

  /** An MCQ is accepted exactly when it has at least two options, all
      labelled, and one of them, and no other, is correct. */
  lemma MCQAcceptance(st: Store, content: Content, sent: Approval, tenantId: Option<string>, options: seq<OptionInput>,
                      newId: Id, optionIds: seq<Id>, context: Option<string>)
    requires newId !in st.questions && |optionIds| == |options|
    ensures CreateMCQ(st, content, sent, tenantId, Some(options), newId, optionIds, context).Ok? <==>
              && |options| >= 2
              && (forall i :: 0 <= i < |options| ==> options[i].optionLabel.Some?)
              && exists k :: 0 <= k < |options| && options[k].correct
                   && forall i :: 0 <= i < |options| && i != k ==> !options[i].correct
  {
    if exists k :: 0 <= k < |options| && options[k].correct
                   && forall i :: 0 <= i < |options| && i != k ==> !options[i].correct {
      var k :| 0 <= k < |options| && options[k].correct
               && forall i :: 0 <= i < |options| && i != k ==> !options[i].correct;
      CorrectCountOne(options, k);
    }
    if CorrectCount(options) == 1 {
      CorrectCountOneInverse(options);
    }
  }

  /** Each saved option row is the submitted option, pointing at the new
      question, when the option ids are fresh and distinct. */
  lemma {:induction false} SavedOptionRows(options: map<Id, OptionRow>, question: Id, inputs: seq<OptionInput>,
                                           ids: seq<Id>, context: Option<string>)
    requires |ids| == |inputs| && Labelled(inputs)
    requires forall i, j :: 0 <= i < j < |ids| ==> ids[i] != ids[j]
    ensures forall i :: 0 <= i < |ids| ==>
              SaveOptions(options, question, inputs, ids, context)[ids[i]] ==
                OptionRow(question, inputs[i].optionLabel.value, inputs[i].optionText, inputs[i].correct,
                          Tenancy.PrePersist(inputs[i].tenantId, context))
    decreases |inputs|
  {
    if |inputs| > 0 {
      var row := OptionRow(question, inputs[0].optionLabel.value, inputs[0].optionText, inputs[0].correct,
                           Tenancy.PrePersist(inputs[0].tenantId, context));
      SavedOptionRows(options[ids[0] := row], question, inputs[1..], ids[1..], context);
      forall i | 0 < i < |ids| ensures ids[i] == ids[1..][i - 1] && inputs[i] == inputs[1..][i - 1] {
      }
      assert ids[0] !in ids[1..];
    }
  }

  /** Deleting a freshly created MCQ restores the tables. */
  lemma DeleteUndoesCreateMCQ(st: Store, content: Content, sent: Approval, tenantId: Option<string>,
                              options: seq<OptionInput>, newId: Id, optionIds: seq<Id>, context: Option<string>)
    requires Consistent(st) && newId !in st.questions && |optionIds| == |options|
    requires forall i :: 0 <= i < |optionIds| ==> optionIds[i] !in st.options
    requires CreateMCQ(st, content, sent, tenantId, Some(options), newId, optionIds, context).Ok?
    ensures DeleteQuestion(CreateMCQ(st, content, sent, tenantId, Some(options), newId, optionIds, context).value, newId) == st
  {
    DeleteUndoesSave(st, NewQuestion(MCQ, content, sent, tenantId, context), newId, options, optionIds, context);
  }

  /** Deleting a freshly created short or creative question restores the
      tables; no option can point at the new id. */
  lemma DeleteUndoesCreateShortOrCQ(st: Store, content: Content, sent: Approval, tenantId: Option<string>,
                                    newId: Id, context: Option<string>)
    requires Consistent(st) && newId !in st.questions
    ensures DeleteQuestion(CreateShortQuestion(st, content, sent, tenantId, newId, context), newId) == st
    ensures DeleteQuestion(CreateCQ(st, content, sent, tenantId, newId, context), newId) == st
  {
    forall o | o in st.options ensures st.options[o].question != newId {
      assert st.options[o].question in st.questions;
    }
    var short := CreateShortQuestion(st, content, sent, tenantId, newId, context);
    var cq := CreateCQ(st, content, sent, tenantId, newId, context);
    assert DeleteQuestion(short, newId).options == st.options;
    assert DeleteQuestion(cq, newId).options == st.options;
  }

  /** A create body's approver fields stay on the PENDING question until a
      review: an approval replaces them, a rejection keeps them. */
  lemma SentApproverUntilReview(st: Store, content: Content, sent: Approval, tenantId: Option<string>,
                                newId: Id, context: Option<string>, approverId: string, now: int)
    requires newId !in st.questions
    ensures var q := CreateShortQuestion(st, content, sent, tenantId, newId, context).questions[newId];
            q.status == Pending && q.approvedBy == sent.approvedBy && q.approvedAt == sent.approvedAt
    ensures var st2 := CreateShortQuestion(st, content, sent, tenantId, newId, context);
            var q := ApproveQuestion(st2, newId, approverId, now).value.questions[newId];
            q.approvedBy == Some(approverId) && q.approvedAt == Some(now)
    ensures var st2 := CreateShortQuestion(st, content, sent, tenantId, newId, context);
            var q := RejectQuestion(st2, newId).value.questions[newId];
            q.status == Rejected && q.approvedBy == sent.approvedBy
  {
  }

  lemma DeleteUndoesSave(st: Store, q: Question, newId: Id, options: seq<OptionInput>, optionIds: seq<Id>,
                         context: Option<string>)
    requires Consistent(st) && newId !in st.questions && |optionIds| == |options| && Labelled(options)
    requires forall i :: 0 <= i < |optionIds| ==> optionIds[i] !in st.options
    ensures DeleteQuestion(Store(st.questions[newId := q], SaveOptions(st.options, newId, options, optionIds, context)), newId) == st
  {
    var saved := SaveOptions(st.options, newId, options, optionIds, context);
    var st3 := DeleteQuestion(Store(st.questions[newId := q], saved), newId);
    SavedRowsPointAt(st.options, newId, options, optionIds, context);
    forall o | o in st.options ensures o in st3.options && st3.options[o] == st.options[o] {
      assert o !in optionIds;
      assert saved[o] == st.options[o];
      assert st.options[o].question in st.questions;
    }
    forall o | o in st3.options ensures o in st.options {
      assert saved[o].question != newId;
    }
    assert st3.questions == st.questions;
    assert st3.options == st.options;
  }

  /** Every option row a save adds points at the new question. */
  lemma {:induction false} SavedRowsPointAt(options: map<Id, OptionRow>, question: Id, inputs: seq<OptionInput>,
                                            ids: seq<Id>, context: Option<string>)
    requires |ids| == |inputs| && Labelled(inputs)
    ensures var r := SaveOptions(options, question, inputs, ids, context);
            forall o :: o in r && (o !in options || r[o] != options[o]) ==> r[o].question == question
    decreases |inputs|
  {
    if |inputs| > 0 {
      var row := OptionRow(question, inputs[0].optionLabel.value, inputs[0].optionText, inputs[0].correct,
                           Tenancy.PrePersist(inputs[0].tenantId, context));
      SavedRowsPointAt(options[ids[0] := row], question, inputs[1..], ids[1..], context);
    }
  }
}
