/** The creative-question form: a stem and four sub-questions a–d with
    marks, stored as one HTML text whose marks are their sum. Marks are
    whole numbers here (the form parses them as floats). */
module CqCreate {
  import opened Wrappers
  import opened Text
  import FormCascade
  import AcademicListing
  import Questions
  import RequestBinding

  datatype SubQuestion = SubQuestion(letter: string, text: string, marks: int)

  /** Sub-questions a–d, empty, worth 1, 2, 3 and 4. */
  function InitialSubQuestions(): (subs: seq<SubQuestion>)
    ensures |subs| == 4 && TotalMarks(subs) == 10
    ensures forall i :: 0 <= i < 4 ==> subs[i].letter == ["abcd"[i]] && subs[i].text == "" && subs[i].marks == i + 1
  {
    [SubQuestion("a", "", 1), SubQuestion("b", "", 2), SubQuestion("c", "", 3), SubQuestion("d", "", 4)]
  }

  /** The `reduce` over the marks. */
  function TotalMarks(subs: seq<SubQuestion>): (total: int)
    ensures (forall i :: 0 <= i < |subs| ==> subs[i].marks >= 0) ==> total >= 0
  {
    if |subs| == 0 then 0 else subs[0].marks + TotalMarks(subs[1..])
  }

  lemma {:induction false} TotalMarksAdditive(a: seq<SubQuestion>, b: seq<SubQuestion>)
    ensures TotalMarks(a + b) == TotalMarks(a) + TotalMarks(b)
  {
    if |a| == 0 {
      assert a + b == b;
    } else {
      assert (a + b)[1..] == a[1..] + b;
      TotalMarksAdditive(a[1..], b);
    }
  }

  /** `handleSubQuestionChange`: only entry `index` gets the new text. */
  function ChangeText(subs: seq<SubQuestion>, index: nat, text: string): (r: seq<SubQuestion>)
    requires index < |subs|
    ensures |r| == |subs| && r[index] == subs[index].(text := text)
    ensures forall i :: 0 <= i < |r| && i != index ==> r[i] == subs[i]
    ensures TotalMarks(r) == TotalMarks(subs)
  {
    var r := subs[index := subs[index].(text := text)];
    MarksAfterUpdate(subs, index, r[index]);
    r
  }

  /** `handleSubQuestionMarksChange`: only entry `index` gets the new marks. */
  function ChangeMarks(subs: seq<SubQuestion>, index: nat, marks: int): (r: seq<SubQuestion>)
    requires index < |subs|
    ensures |r| == |subs| && r[index] == subs[index].(marks := marks)
    ensures forall i :: 0 <= i < |r| && i != index ==> r[i] == subs[i]
    ensures TotalMarks(r) == TotalMarks(subs) - subs[index].marks + marks
  {
    var r := subs[index := subs[index].(marks := marks)];
    MarksAfterUpdate(subs, index, r[index]);
    r
  }

  lemma {:induction false} MarksAfterUpdate(subs: seq<SubQuestion>, index: nat, sq: SubQuestion)
    requires index < |subs|
    ensures TotalMarks(subs[index := sq]) == TotalMarks(subs) - subs[index].marks + sq.marks
  {
    if index > 0 {
      assert subs[index := sq][1..] == subs[1..][index - 1 := sq];
      MarksAfterUpdate(subs[1..], index - 1, sq);
    }
  }

  const MarksOpen: string := "<li data-marks=\""

  /** One sub-question's list item; the marks appear as an attribute and in brackets. */
  function Item(sq: SubQuestion): (s: string)
    ensures |s| > |MarksOpen| + |IntToString(sq.marks)|
    ensures s[..|MarksOpen|] == MarksOpen
    ensures s[|MarksOpen|..|MarksOpen| + |IntToString(sq.marks)|] == IntToString(sq.marks)
    ensures s[|MarksOpen| + |IntToString(sq.marks)|] == '"'
  {
    var m := IntToString(sq.marks);
    var tail := "\"><span class=\"cq-text\">" + sq.text + "</span> <span class=\"cq-marks\">(" + m + ")</span></li>";
    assert tail[0] == '"';
    var s := MarksOpen + m + tail;
    assert s[..|MarksOpen|] == MarksOpen;
    assert s[|MarksOpen|..|MarksOpen| + |m|] == m;
    assert s[|MarksOpen| + |m|] == tail[0];
    s
  }

  /** The data-marks attribute of an item reads back as the sub-question's marks. */
  lemma ItemMarksReadBack(sq: SubQuestion)
    requires IntMin <= sq.marks <= IntMax
    ensures var s := Item(sq);
            ParseInt(s[|MarksOpen|..|MarksOpen| + |IntToString(sq.marks)|]) == Some(sq.marks)
  {
    ParseIntToString(sq.marks);
  }

  function Items(subs: seq<SubQuestion>): (s: string)
  {
    if |subs| == 0 then "" else Item(subs[0]) + Items(subs[1..])
  }

  /** The items of two lists are the items of each, in order. */
  lemma {:induction false} ItemsDistribute(a: seq<SubQuestion>, b: seq<SubQuestion>)
    ensures Items(a + b) == Items(a) + Items(b)
  {
    if |a| == 0 {
      assert a + b == b;
    } else {
      assert (a + b)[1..] == a[1..] + b;
      ItemsDistribute(a[1..], b);
    }
  }

  const StemOpen: string := "<div class=\"cq-stem\">"
  const ListOpen: string := "</div><div class=\"cq-questions\"><ol type=\"a\">"
  const ListClose: string := "</ol></div>"

  /** The combined HTML: the stem in its div, then the ordered list of items. */
  function CombinedHtml(stem: string, subs: seq<SubQuestion>): (html: string)
    ensures |html| == |StemOpen + stem + ListOpen| + |Items(subs)| + |ListClose|
    ensures StartsWith(html, StemOpen + stem + ListOpen)
    ensures EndsWith(html, ListClose)
    ensures html[|StemOpen + stem + ListOpen|..|html| - |ListClose|] == Items(subs)
  {
    var head := StemOpen + stem + ListOpen;
    var html := head + Items(subs) + ListClose;
    assert html[..|head|] == head;
    assert html[|html| - |ListClose|..] == ListClose;
    assert html[|head|..|html| - |ListClose|] == Items(subs);
    html
  }

  datatype CqForm = CqForm(picks: FormCascade.Picks, stem: string, subs: seq<SubQuestion>,
                           difficulty: string, language: string)

  datatype SubmitError =
    | MissingFields        // "Please fill all required fields (Class, Subject, Chapter, Stem)."
    | EmptySubQuestion     // "Please fill all 4 sub-questions."

  predicate Filled(f: CqForm) {
    f.stem != "" && f.picks.classId != "" && f.picks.subjectId != "" && f.picks.chapterId != ""
  }

  /** The body `handleSubmit` builds, with the class-subject under `subjectKey`. */
  function Body(f: CqForm, subjectKey: string): (b: RequestBinding.QuestionBody)
    requires subjectKey != "academicClass" && subjectKey != "chapter"
    ensures b.questionText == CombinedHtml(f.stem, f.subs) && b.marks == TotalMarks(f.subs)
    ensures b.refs == FormCascade.Refs(f.picks, subjectKey) && b.topic == FormCascade.TopicRef(f.picks)
    ensures b.explanation.None? && b.difficulty == f.difficulty && b.language == f.language
  {
    RequestBinding.QuestionBody(CombinedHtml(f.stem, f.subs), TotalMarks(f.subs), f.difficulty, f.language, None,
                                FormCascade.Refs(f.picks, subjectKey), FormCascade.TopicRef(f.picks))
  }

  /** The submit checks: required fields first, then every sub-question's text. */
  function Check(f: CqForm): (r: Result<(), SubmitError>)
    ensures !Filled(f) ==> r == Err(MissingFields)
    ensures r.Ok? <==> Filled(f) && forall i :: 0 <= i < |f.subs| ==> !IsBlank(f.subs[i].text)
  {
    if !Filled(f) then Err(MissingFields)
    else if exists i :: 0 <= i < |f.subs| && IsBlank(f.subs[i].text) then Err(EmptySubQuestion)
    else Ok(())
  }

  /** `handleSubmit` as written: the class-subject goes under `subject`. */
  function SubmitAsWritten(f: CqForm): (r: Result<RequestBinding.QuestionBody, SubmitError>)
    ensures r.Ok? <==> Check(f).Ok?
    ensures r.Ok? ==> r.value == Body(f, "subject")
  {
    var _ :- Check(f);
    Ok(Body(f, "subject"))
  }

  /** A question created from the form as written is stored without its
      class-subject: the entity has no `subject` property. */
  lemma AsWrittenLosesClassSubject(f: CqForm, st: Questions.Store, newId: Questions.Id, context: Option<string>)
    requires SubmitAsWritten(f).Ok? && newId !in st.questions
    ensures Questions.CreateCQ(st, RequestBinding.BindQuestion(SubmitAsWritten(f).value), Questions.Unapproved, None, newId, context)
              .questions[newId].content.classSubject.None?
  {
  }

  /** `handleSubmit` with the class-subject under the entity's field name. */
  function Submit(f: CqForm): (r: Result<RequestBinding.QuestionBody, SubmitError>)
    ensures r.Ok? <==> Check(f).Ok?
    ensures r.Err? ==> r.error == Check(f).error
    ensures r.Ok? ==> r.value == Body(f, "classSubject")
  {
    var _ :- Check(f);
    Ok(Body(f, "classSubject"))
  }

  /** The stored question keeps the picked class-subject and chapter, the
      combined text and the summed marks. */
  lemma SubmittedQuestionStored(f: CqForm, st: Questions.Store, newId: Questions.Id, context: Option<string>)
    requires Submit(f).Ok? && newId !in st.questions
    ensures var q := Questions.CreateCQ(st, RequestBinding.BindQuestion(Submit(f).value), Questions.Unapproved, None, newId, context)
                       .questions[newId];
            && q.content.classSubject == Some(f.picks.subjectId) && q.content.chapter == Some(f.picks.chapterId)
            && q.content.questionText == CombinedHtml(f.stem, f.subs) && q.content.marks == TotalMarks(f.subs)
            && q.qtype == Questions.CQ
  {
  }

  /** As written the form can never be sent: a subject chosen from the
      select leaves the subject pick empty, so the required-fields check
      refuses the form whatever else is filled. */
  lemma AsWrittenSubjectBlocksSubmit(f: CqForm, c: FormCascade.Cascade, classId: string,
                                     rows: seq<AcademicListing.ClassSubjectRow>, i: nat)
    requires classId != "" && i < |rows|
    ensures var c1 := FormCascade.ChangeClass(c, classId, AcademicListing.SubjectOptionsAsWritten(rows, AcademicListing.NameLabel));
            var g := f.(picks := FormCascade.ChangeSubjectAsWritten(c1, c1.lists.subjects[i]).picks);
            SubmitAsWritten(g) == Err(MissingFields) && Submit(g) == Err(MissingFields)
  {
    FormCascade.AsWrittenSubjectNeverPicked(c, classId, rows, i);
  }
}
