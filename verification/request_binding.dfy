/** How the question endpoints turn a JSON request body into the entities
    the question service receives. Jackson binds a property only under the
    name the entity's accessors give it and ignores every other key. For
    `QuestionOption.isCorrect`, a `boolean` with Lombok accessors
    `isCorrect()` and `setCorrect`, that name is `correct`. A reference to
    another entity is bound from an object carrying its id under the
    entity's field name (`classSubject`, `chapter`, `topic`). */
module RequestBinding {
  import opened Wrappers
  import Questions

  type Id = string

  /** The property name Jackson gives the option's correctness flag. */
  const CorrectKey: string := "correct"

  /** An option object as the client writes it: the label (absent when
      undefined), the text, and the correctness flag under some key. */
  datatype OptionBody = OptionBody(optionLabel: Option<string>, optionText: string, flagKey: string, flag: bool)

  /** The option the service receives: a flag under any other key is
      dropped and the primitive stays false; an absent label stays absent. */
  function BindOption(b: OptionBody): (o: Questions.OptionInput)
    ensures o.correct <==> b.flagKey == CorrectKey && b.flag
    ensures o.optionLabel == b.optionLabel
    ensures o.optionText == b.optionText && o.tenantId.None?
  {
    Questions.OptionInput(b.optionLabel, b.optionText, b.flagKey == CorrectKey && b.flag, None)
  }

  function BindOptions(bs: seq<OptionBody>): (os: seq<Questions.OptionInput>)
    ensures |os| == |bs| && forall i :: 0 <= i < |bs| ==> os[i] == BindOption(bs[i])
  {
    seq(|bs|, i requires 0 <= i < |bs| => BindOption(bs[i]))
  }

  /** A question object as the client writes it: the scalar fields, then
      the references by the key they are sent under. */
  datatype QuestionBody = QuestionBody(
    questionText: string, marks: int, difficulty: string, language: string,
    explanation: Option<string>, refs: map<string, Id>, topic: Option<Id>)

  /** The question the service receives: only `classSubject` and `chapter`
      keys reach the entity; a key the entity lacks is ignored. */
  function BindQuestion(b: QuestionBody): (c: Questions.Content)
    ensures c.classSubject == (if "classSubject" in b.refs then Some(b.refs["classSubject"]) else None)
    ensures c.chapter == (if "chapter" in b.refs then Some(b.refs["chapter"]) else None)
    ensures c.questionText == b.questionText && c.marks == b.marks && c.difficulty == b.difficulty
    ensures c.language == b.language && c.explanation == b.explanation && c.topic == b.topic
  {
    Questions.Content(b.questionText, b.difficulty, b.marks, b.language, b.explanation,
                      if "classSubject" in b.refs then Some(b.refs["classSubject"]) else None,
                      if "chapter" in b.refs then Some(b.refs["chapter"]) else None,
                      b.topic)
  }

  /** The number of correct bound options counts the flags sent under the
      right key. */
  lemma {:induction false} BoundCorrectCount(bs: seq<OptionBody>, key: string)
    requires forall i :: 0 <= i < |bs| ==> bs[i].flagKey == key
    ensures key != CorrectKey ==> Questions.CorrectCount(BindOptions(bs)) == 0
    ensures key == CorrectKey ==> forall i :: 0 <= i < |bs| ==> BindOptions(bs)[i].correct == bs[i].flag
  {
    if key != CorrectKey {
      var os := BindOptions(bs);
      assert forall i :: 0 <= i < |os| ==> !os[i].correct;
    }
  }

  /** An option body sent without a label reaches the service unlabelled,
      so the MCQ is refused and nothing is stored. */
  lemma UnlabelledOptionRefused(st: Questions.Store, content: Questions.Content, bs: seq<OptionBody>, i: nat,
                                newId: Id, optionIds: seq<Id>, context: Option<string>)
    requires newId !in st.questions && |optionIds| == |bs|
    requires i < |bs| && bs[i].optionLabel.None?
    ensures Questions.CreateMCQ(st, content, Questions.Unapproved, None, Some(BindOptions(bs)), newId, optionIds, context).Err?
  {
    assert BindOptions(bs)[i].optionLabel.None?;
  }
}
