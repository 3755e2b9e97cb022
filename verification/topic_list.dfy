/** The topic list page: a class → subject → chapter filter over the topics
    table, and a modal that creates a topic under a chapter. A handler's
    state change re-runs the effects whose dependency changed; a list an
    effect fetches arrives as a parameter. */
module TopicList {
  import opened Wrappers
  import opened AcademicListing

  /** The filter selections, the dropdown lists they fill, and the listing
      the table last asked for. */
  datatype Page = Page(cls: Id, subject: Id, chapter: Id, subjects: seq<Id>, chapters: seq<Id>, listing: Listing)

  /** An empty selection has an empty list below it and an empty selection
      below it, and the table asks for the chapter filter's listing. */
  predicate Consistent(p: Page) {
    && (p.cls == "" ==> p.subjects == [] && p.subject == "")
    && (p.subject == "" ==> p.chapters == [] && p.chapter == "")
    && p.listing == ListingFor(p.chapter)
  }

  /** The page after the mount effects: nothing picked, every topic listed. */
  const Initial: Page := Page("", "", "", [], [], All)

  /** The three filter effects, each run only when its selection changed
      from `prev`: a picked class or subject fetches the list below it, an
      empty one empties the lists and selections below; the chapter effect
      fetches the chapter's topics, or all topics. */
  function Settle(prev: Page, p: Page, subjectsFetched: seq<Id>, chaptersFetched: seq<Id>): (r: Page)
    ensures p.cls != prev.cls && p.cls == "" ==> r.subjects == [] && r.subject == "" && r.chapter == ""
    ensures p.cls != prev.cls && p.cls != "" ==> r.subjects == subjectsFetched
    ensures p.cls == prev.cls ==> r.subjects == p.subjects
    ensures r.cls == p.cls
  {
    var a := if p.cls == prev.cls then p
             else if p.cls != "" then p.(subjects := subjectsFetched)
             else p.(subjects := [], subject := "", chapters := [], chapter := "");
    var b := if p.subject == prev.subject then a
             else if p.subject != "" then a.(chapters := chaptersFetched)
             else a.(chapters := [], chapter := "");
    if p.chapter == prev.chapter then b else b.(listing := ListingFor(p.chapter))
  }

  /** The class filter: subject and chapter filters cleared. */
  function ChangeClass(p: Page, v: Id, subjectsFetched: seq<Id>): (r: Page)
  {
    Settle(p, p.(cls := v, subject := "", chapter := ""), subjectsFetched, [])
  }

  /** The subject filter: the chapter filter cleared. */
  function ChangeSubject(p: Page, v: Id, chaptersFetched: seq<Id>): (r: Page)
  {
    Settle(p, p.(subject := v, chapter := ""), [], chaptersFetched)
  }

  /** The chapter filter. */
  function ChangeChapter(p: Page, v: Id): (r: Page)
  {
    Settle(p, p.(chapter := v), [], [])
  }

  /** Changing the class clears the subject and chapter filters and their
      chapter list, and the table goes back to every topic; a picked class
      shows its subjects. */
  lemma ChangeClassClears(p: Page, v: Id, fetched: seq<Id>)
    requires Consistent(p)
    ensures var r := ChangeClass(p, v, fetched);
            && r.cls == v && r.subject == "" && r.chapter == "" && r.chapters == [] && r.listing == All
            && (v != p.cls && v != "" ==> r.subjects == fetched)
            && (v == "" ==> r.subjects == [])
  {
  }

  /** Changing the subject keeps the class and its subjects and clears the
      chapter filter; a picked subject shows its chapters. */
  lemma ChangeSubjectClears(p: Page, v: Id, fetched: seq<Id>)
    requires Consistent(p)
    ensures var r := ChangeSubject(p, v, fetched);
            && r.cls == p.cls && r.subjects == p.subjects && r.subject == v && r.chapter == "" && r.listing == All
            && (v != p.subject && v != "" ==> r.chapters == fetched)
            && (v == "" ==> r.chapters == [])
  {
  }

  /** The table always lists what the chapter filter selects, and a
      selection is only made under the one above it, whichever filter the
      user changes. The selects offer "" or an entry of the list shown. */
  lemma FiltersKeepConsistent(p: Page, v: Id, fetched: seq<Id>)
    requires Consistent(p)
    ensures Consistent(ChangeClass(p, v, fetched))
    ensures p.cls != "" ==> Consistent(ChangeSubject(p, v, fetched))
    ensures p.subject != "" ==> Consistent(ChangeChapter(p, v))
    ensures ChangeChapter(p, v).listing == ListingFor(v)
  {
  }

  /** The modal's form. */
  datatype TopicForm = TopicForm(name: string, classId: Id, subjectId: Id, chapterId: Id)

  const EmptyForm: TopicForm := TopicForm("", "", "", "")

  /** "Add Topic": disabled without a chapter filter; otherwise the modal
      opens with the filter's class, subject and chapter. */
  function OpenModal(p: Page): (f: Option<TopicForm>)
    ensures f.Some? <==> p.chapter != ""
    ensures f.Some? ==> f.value == TopicForm("", p.cls, p.subject, p.chapter)
  {
    if p.chapter == "" then None else Some(TopicForm("", p.cls, p.subject, p.chapter))
  }

  /** The modal's class select: subject and chapter cleared. Its effect loads
      the class's subjects into the same list the filter shows. */
  function ModalClass(p: Page, f: TopicForm, v: Id, fetched: seq<Id>): (r: (Page, TopicForm))
    ensures r.1.classId == v && r.1.subjectId == "" && r.1.chapterId == "" && r.1.name == f.name
    ensures r.0.(subjects := p.subjects) == p
    ensures r.0.subjects == fetched <== v != f.classId && v != ""
  {
    (if v != f.classId && v != "" then p.(subjects := fetched) else p, f.(classId := v, subjectId := "", chapterId := ""))
  }

  /** The modal's subject select: the chapter cleared; the subject's
      chapters replace the filter's chapter list. */
  function ModalSubject(p: Page, f: TopicForm, v: Id, fetched: seq<Id>): (r: (Page, TopicForm))
    ensures r.1.(subjectId := f.subjectId, chapterId := f.chapterId) == f && r.1.subjectId == v && r.1.chapterId == ""
    ensures r.0.(chapters := p.chapters) == p
    ensures r.0.chapters == fetched <== v != f.subjectId && v != ""
  {
    (if v != f.subjectId && v != "" then p.(chapters := fetched) else p, f.(subjectId := v, chapterId := ""))
  }

  /** A class picked in the modal replaces the filter's subject list while
      the filter's class stays, so the filter shows another class's
      subjects. */
  lemma ModalOverwritesFilterSubjects(p: Page, f: TopicForm, v: Id, fetched: seq<Id>)
    requires v != f.classId && v != "" && v != p.cls
    ensures var r := ModalClass(p, f, v, fetched).0; r.cls == p.cls && r.subjects == fetched
  {
  }

  /** The outcome of the modal's submit. */
  datatype SubmitOutcome = SubmitOutcome(form: TopicForm, open: bool, request: Option<(Id, string)>, refresh: Option<Listing>)

  /** `handleSubmit`: the browser lets the form through only with every
      field filled; the topic is created under the form's chapter, and on
      success the modal closes, the form is reset and the table refreshes
      by the shared rule. A failed create keeps the modal and the form. */
  function Submit(p: Page, f: TopicForm, ok: bool): (r: SubmitOutcome)
    ensures r.request.Some? <==> f.name != "" && f.classId != "" && f.subjectId != "" && f.chapterId != ""
    ensures r.request.Some? ==> r.request.value == (f.chapterId, f.name)
    ensures r.request.Some? && ok ==> r.form == EmptyForm && !r.open
                                      && r.refresh == RefreshAfterCreate(p.chapter, f.chapterId)
    ensures !(r.request.Some? && ok) ==> r.form == f && r.open && r.refresh.None?
  {
    if f.name == "" || f.classId == "" || f.subjectId == "" || f.chapterId == "" then SubmitOutcome(f, true, None, None)
    else if !ok then SubmitOutcome(f, true, Some((f.chapterId, f.name)), None)
    else SubmitOutcome(EmptyForm, false, Some((f.chapterId, f.name)), RefreshAfterCreate(p.chapter, f.chapterId))
  }

  /** A topic added through the modal opened from the filter always shows
      up: its chapter is the filter's, so the table refreshes. */
  lemma PrefilledCreateRefreshes(p: Page, name: string, ok: bool)
    requires Consistent(p) && p.chapter != "" && p.subject != "" && p.cls != "" && name != "" && ok
    ensures var r := Submit(p, OpenModal(p).value.(name := name), ok);
            r.refresh == Some(p.listing) && Visible(p.listing, r.request.value.0)
  {
  }
}
