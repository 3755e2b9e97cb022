/** The class → subject → chapter → topic selection of the question
    forms. Ids are strings and "" means nothing chosen. A handler clears
    every pick and list below the level it changes; the list for the level
    below is then fetched, which arrives here as `fetched` and only counts
    when the new pick is not empty.

    The MCQ form works this way: its subject options carry class-subject
    ids and its chapters come from `getChaptersByClassSubject`. The CQ and
    short-question forms are written differently. Their subject options
    read an `id` the class-subject rows do not have, and their subject
    handler calls `getChaptersBySubject`, which the academic service does
    not export. The `...AsWritten` members model those two forms; the
    others model the cascade as the MCQ form runs it. */
module FormCascade {
  import opened Wrappers
  import AcademicListing

  type Id = string

  datatype Picks = Picks(classId: Id, subjectId: Id, chapterId: Id, topicId: Id)

  datatype Lists = Lists(subjects: seq<Id>, chapters: seq<Id>, topics: seq<Id>)

  datatype Cascade = Cascade(picks: Picks, lists: Lists)

  const Empty: Cascade := Cascade(Picks("", "", "", ""), Lists([], [], []))

  /** A pick below is made only under a pick above, a list is loaded only
      under a pick above it, and every pick comes from its list. */
  predicate Chained(c: Cascade) {
    var (p, l) := (c.picks, c.lists);
    && (p.subjectId != "" ==> p.classId != "" && p.subjectId in l.subjects)
    && (p.chapterId != "" ==> p.subjectId != "" && p.chapterId in l.chapters)
    && (p.topicId != "" ==> p.chapterId != "" && p.topicId in l.topics)
    && (l.subjects != [] ==> p.classId != "")
    && (l.chapters != [] ==> p.subjectId != "")
    && (l.topics != [] ==> p.chapterId != "")
  }

  /** `handleClassChange`. */
  function ChangeClass(c: Cascade, classId: Id, fetched: seq<Id>): (r: Cascade)
    ensures r.picks == Picks(classId, "", "", "")
    ensures r.lists.chapters == [] && r.lists.topics == []
    ensures r.lists.subjects == if classId == "" then [] else fetched
  {
    Cascade(Picks(classId, "", "", ""), Lists(if classId != "" then fetched else [], [], []))
  }

  /** `handleSubjectChange`: the class and its subjects stay. */
  function ChangeSubject(c: Cascade, subjectId: Id, fetched: seq<Id>): (r: Cascade)
    ensures r.picks == c.picks.(subjectId := subjectId, chapterId := "", topicId := "")
    ensures r.lists.subjects == c.lists.subjects && r.lists.topics == []
    ensures r.lists.chapters == if subjectId == "" then [] else fetched
  {
    Cascade(c.picks.(subjectId := subjectId, chapterId := "", topicId := ""),
            c.lists.(chapters := if subjectId != "" then fetched else [], topics := []))
  }

  /** `handleChapterChange`: class, subject and their lists stay. */
  function ChangeChapter(c: Cascade, chapterId: Id, fetched: seq<Id>): (r: Cascade)
    ensures r.picks == c.picks.(chapterId := chapterId, topicId := "")
    ensures r.lists.subjects == c.lists.subjects && r.lists.chapters == c.lists.chapters
    ensures r.lists.topics == if chapterId == "" then [] else fetched
  {
    Cascade(c.picks.(chapterId := chapterId, topicId := ""),
            c.lists.(topics := if chapterId != "" then fetched else []))
  }

  /** The generic field handler applied to `topicId`. */
  function ChangeTopic(c: Cascade, topicId: Id): (r: Cascade)
    ensures r.picks == c.picks.(topicId := topicId) && r.lists == c.lists
  {
    c.(picks := c.picks.(topicId := topicId))
  }

  /** The references a form sends: the class, the class-subject under
      `subjectKey`, and the chapter, each by id. */
  function Refs(p: Picks, subjectKey: string): (refs: map<string, Id>)
    requires subjectKey != "academicClass" && subjectKey != "chapter"
    ensures refs.Keys == {"academicClass", subjectKey, "chapter"}
    ensures refs["academicClass"] == p.classId && refs[subjectKey] == p.subjectId && refs["chapter"] == p.chapterId
  {
    map["academicClass" := p.classId, subjectKey := p.subjectId, "chapter" := p.chapterId]
  }

  /** `topicId ? { id: topicId } : null`. */
  function TopicRef(p: Picks): (t: Option<Id>)
    ensures t.None? <==> p.topicId == ""
    ensures t.Some? ==> t.value == p.topicId
  {
    if p.topicId == "" then None else Some(p.topicId)
  }

  /** The selects only offer "" or an entry of the list they show, so every
      handler keeps the chain intact. */
  lemma HandlersKeepChained(c: Cascade, v: Id, fetched: seq<Id>)
    requires Chained(c)
    ensures Chained(ChangeClass(c, v, fetched))
    ensures (v == "" || (v in c.lists.subjects)) ==> Chained(ChangeSubject(c, v, fetched))
    ensures (v == "" || (v in c.lists.chapters)) ==> Chained(ChangeChapter(c, v, fetched))
    ensures (v == "" || (v in c.lists.topics)) ==> Chained(ChangeTopic(c, v))
  {
  }

  /** Clearing a level clears everything below it. */
  lemma ClearingClears(c: Cascade, fetched: seq<Id>)
    ensures ChangeClass(c, "", fetched) == Empty
    ensures var r := ChangeSubject(c, "", fetched);
            r.picks.chapterId == "" && r.picks.topicId == "" && r.lists.chapters == [] && r.lists.topics == []
    ensures var r := ChangeChapter(c, "", fetched); r.picks.topicId == "" && r.lists.topics == []
  {
  }

  /** The initial form is chained. */
  lemma EmptyChained()
    ensures Chained(Empty)
  {
  }

  /** `handleSubjectChange` of the CQ and short-question forms: after the
      clearing, `getChaptersBySubject` is not a function, so the handler
      throws and no chapter list arrives. */
  function ChangeSubjectAsWritten(c: Cascade, subjectId: Id): (r: Cascade)
    ensures r.picks == c.picks.(subjectId := subjectId, chapterId := "", topicId := "")
    ensures r.lists == c.lists.(chapters := [], topics := [])
  {
    ChangeSubject(c, subjectId, [])
  }

  /** In the CQ and short-question forms as written, whichever subject row
      is chosen, the pick stays "" and no chapter list loads, so the
      chapter select stays disabled. */
  lemma AsWrittenSubjectNeverPicked(c: Cascade, classId: Id, rows: seq<AcademicListing.ClassSubjectRow>, i: nat)
    requires classId != "" && i < |rows|
    ensures var c1 := ChangeClass(c, classId, AcademicListing.SubjectOptionsAsWritten(rows, AcademicListing.NameLabel));
            var c2 := ChangeSubjectAsWritten(c1, c1.lists.subjects[i]);
            c2.picks.subjectId == "" && c2.picks.chapterId == "" && c2.lists.chapters == []
  {
  }

  /** With class-subject options, choosing a row picks its class-subject
      and loads that class-subject's chapters. */
  lemma ClassSubjectPicked(c: Cascade, classId: Id, rows: seq<AcademicListing.ClassSubjectRow>, i: nat,
                           fetched: seq<Id>)
    requires classId != "" && i < |rows| && rows[i].classSubjectId != ""
    ensures var c1 := ChangeClass(c, classId, AcademicListing.SubjectOptions(rows));
            var c2 := ChangeSubject(c1, c1.lists.subjects[i], fetched);
            c2.picks.subjectId == rows[i].classSubjectId && c2.lists.chapters == fetched
            && c2.picks.classId == classId
  {
  }
}
