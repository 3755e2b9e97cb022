/** The four-column academic structure page: classes, then the selected
    class's subjects, the selected subject's chapters and the selected
    chapter's topics. A list fetched after a handler arrives here as the
    `fetched` parameter; whether a create or delete call succeeds arrives
    as `ok`.

    The handlers are written for subject rows carrying `id` and `name`,
    and for a service exporting `createSubject` and
    `getChaptersBySubject`. The subject rows the server sends are
    class-subject rows without those fields, and the service exports
    neither function. The `...AsWritten` members model the page as it
    stands; the others model it with class-subject ids and both calls
    present. */
module AcademicStructure {
  import opened Wrappers
  import opened Text

  type Id = string

  datatype Level = ClassLevel | SubjectLevel | ChapterLevel | TopicLevel

  datatype Structure = Structure(
    classes: seq<Id>, selClass: Option<Id>,
    subjects: seq<Id>, selSubject: Option<Id>,
    chapters: seq<Id>, selChapter: Option<Id>,
    topics: seq<Id>, newName: string)

  /** The calls the page makes to the academic service. A subject's code
      (random) is not part of the model. */
  datatype Request =
    | CreateClass(name: string)
    | CreateSubject(classId: Id, name: string)
    | CreateChapter(subjectId: Id, name: string, chapterNumber: int)
    | CreateTopic(chapterId: Id, name: string)
    | Delete(level: Level, id: Id)

  /** A selection below is only made under a selection above. */
  predicate Nested(s: Structure) {
    (s.selSubject.Some? ==> s.selClass.Some?) && (s.selChapter.Some? ==> s.selSubject.Some?)
  }

  /** `handleClassSelect`: the subject and chapter selections go, and the
      three lists below are emptied before the subjects arrive. */
  function SelectClass(s: Structure, cls: Id, fetched: seq<Id>): (r: Structure)
    ensures r.selClass == Some(cls) && r.selSubject.None? && r.selChapter.None?
    ensures r.subjects == fetched && r.chapters == [] && r.topics == []
    ensures r.classes == s.classes && r.newName == s.newName
  {
    s.(selClass := Some(cls), selSubject := None, selChapter := None, subjects := fetched, chapters := [], topics := [])
  }

  /** `handleSubjectSelect`: the class and its subjects stay. */
  function SelectSubject(s: Structure, subj: Id, fetched: seq<Id>): (r: Structure)
    ensures r.selSubject == Some(subj) && r.selChapter.None? && r.chapters == fetched && r.topics == []
    ensures r.classes == s.classes && r.selClass == s.selClass && r.subjects == s.subjects && r.newName == s.newName
  {
    s.(selSubject := Some(subj), selChapter := None, chapters := fetched, topics := [])
  }

  /** `handleChapterSelect`: only the topics change. */
  function SelectChapter(s: Structure, chap: Id, fetched: seq<Id>): (r: Structure)
    ensures r.selChapter == Some(chap) && r.topics == fetched
    ensures r.(selChapter := s.selChapter, topics := s.topics) == s
  {
    s.(selChapter := Some(chap), topics := fetched)
  }

  /** A column is usable only under a selection in the column before, so a
      selection is made only where its parent is selected; the handlers then
      keep the selections nested. */
  lemma SelectsKeepNested(s: Structure, v: Id, fetched: seq<Id>)
    requires Nested(s)
    ensures Nested(SelectClass(s, v, fetched))
    ensures s.selClass.Some? ==> Nested(SelectSubject(s, v, fetched))
    ensures s.selSubject.Some? ==> Nested(SelectChapter(s, v, fetched))
  {
  }

  /** The create call `handleAdd` makes for a level, if its parent is selected. */
  function AddRequest(s: Structure, level: Level): (q: Option<Request>)
    ensures level == ClassLevel ==> q == Some(CreateClass(s.newName))
    ensures level == SubjectLevel ==> (q.Some? <==> s.selClass.Some?)
    ensures level == ChapterLevel ==> (q.Some? <==> s.selSubject.Some?)
    ensures level == TopicLevel ==> (q.Some? <==> s.selChapter.Some?)
  {
    match level
    case ClassLevel => Some(CreateClass(s.newName))
    case SubjectLevel => if s.selClass.Some? then Some(CreateSubject(s.selClass.value, s.newName)) else None
    case ChapterLevel =>
      if s.selSubject.Some? then Some(CreateChapter(s.selSubject.value, s.newName, |s.chapters| + 1)) else None
    case TopicLevel => if s.selChapter.Some? then Some(CreateTopic(s.selChapter.value, s.newName)) else None
  }

  /** The level's list replaced by a fresh fetch. */
  function Refreshed(s: Structure, level: Level, fetched: seq<Id>): (r: Structure)
    ensures level == ClassLevel ==> r == s.(classes := fetched)
    ensures level == SubjectLevel ==> r == s.(subjects := fetched)
    ensures level == ChapterLevel ==> r == s.(chapters := fetched)
    ensures level == TopicLevel ==> r == s.(topics := fetched)
  {
    match level
    case ClassLevel => s.(classes := fetched)
    case SubjectLevel => s.(subjects := fetched)
    case ChapterLevel => s.(chapters := fetched)
    case TopicLevel => s.(topics := fetched)
  }

  /** `handleAdd`: nothing for a blank name; otherwise the create call when
      the parent is selected, the level refreshed after it, and the name
      cleared unless the call failed. */
  function HandleAdd(s: Structure, level: Level, ok: bool, fetched: seq<Id>): (r: (Structure, Option<Request>))
    ensures IsBlank(s.newName) ==> r == (s, None)
    ensures !IsBlank(s.newName) ==> r.1 == AddRequest(s, level)
    ensures !IsBlank(s.newName) ==> (r.0.newName == "" <==> AddRequest(s, level).None? || ok)
    ensures r.0.selClass == s.selClass && r.0.selSubject == s.selSubject && r.0.selChapter == s.selChapter
  {
    if IsBlank(s.newName) then (s, None)
    else
      var q := AddRequest(s, level);
      if q.None? then (s.(newName := ""), None)
      else if !ok then (s, q)
      else (Refreshed(s, level, fetched).(newName := ""), q)
  }

  /** A create for a level goes under the current selection of the level
      above, and a new chapter is numbered after the chapters shown. */
  lemma AddTargetsSelection(s: Structure, level: Level, ok: bool, fetched: seq<Id>)
    requires HandleAdd(s, level, ok, fetched).1.Some?
    ensures var q := HandleAdd(s, level, ok, fetched).1.value;
            && !IsBlank(s.newName) && q.name == s.newName
            && (q.CreateSubject? ==> level == SubjectLevel && Some(q.classId) == s.selClass)
            && (q.CreateChapter? ==> level == ChapterLevel && Some(q.subjectId) == s.selSubject
                                     && q.chapterNumber == |s.chapters| + 1)
            && (q.CreateTopic? ==> level == TopicLevel && Some(q.chapterId) == s.selChapter)
  {
  }

  /** Adding chapters one after another under the same subject numbers them
      1, 2, 3, … as long as each refresh shows one more chapter. */
  lemma ChapterNumbersAdvance(s: Structure, name2: string, fetched: seq<Id>)
    requires s.selSubject.Some? && !IsBlank(s.newName) && !IsBlank(name2)
    requires |fetched| == |s.chapters| + 1
    ensures var s1 := HandleAdd(s, ChapterLevel, true, fetched).0;
            var q2 := HandleAdd(s1.(newName := name2), ChapterLevel, true, fetched).1;
            q2 == Some(CreateChapter(s.selSubject.value, name2, HandleAdd(s, ChapterLevel, true, fetched).1.value.chapterNumber + 1))
  {
  }

  /** `handleDelete`: nothing unless confirmed; after a successful delete
      the level is refreshed under the selection above and only that
      level's own selection is cleared (topics have none). Reading the
      parent's id fails when it is not selected, and the selection then
      stays. */
  function HandleDelete(s: Structure, level: Level, id: Id, confirmed: bool, ok: bool, fetched: seq<Id>)
    : (r: (Structure, Option<Request>))
    ensures !confirmed ==> r == (s, None)
    ensures confirmed ==> r.1 == Some(Delete(level, id))
    ensures confirmed && ok && level == ClassLevel ==> r.0 == s.(classes := fetched, selClass := None)
    ensures confirmed && ok && level == SubjectLevel && s.selClass.Some? ==>
              r.0 == s.(subjects := fetched, selSubject := None)
    ensures confirmed && ok && level == ChapterLevel && s.selSubject.Some? ==>
              r.0 == s.(chapters := fetched, selChapter := None)
    ensures confirmed && ok && level == TopicLevel && s.selChapter.Some? ==> r.0 == s.(topics := fetched)
    ensures !ok ==> r.0 == s
  {
    if !confirmed then (s, None)
    else
      var q := Some(Delete(level, id));
      if !ok then (s, q)
      else
        match level
        case ClassLevel => (s.(classes := fetched, selClass := None), q)
        case SubjectLevel => if s.selClass.None? then (s, q) else (s.(subjects := fetched, selSubject := None), q)
        case ChapterLevel => if s.selSubject.None? then (s, q) else (s.(chapters := fetched, selChapter := None), q)
        case TopicLevel => if s.selChapter.None? then (s, q) else (s.(topics := fetched), q)
  }

  /** Deleting a class keeps the subject and chapter picked under it, and
      deleting a subject keeps the chapter: the selections are then no
      longer nested. */
  lemma DeleteKeepsDescendants(s: Structure, id: Id, fetched: seq<Id>)
    requires Nested(s) && s.selChapter.Some?
    ensures var r := HandleDelete(s, ClassLevel, id, true, true, fetched).0;
            && r.selSubject == s.selSubject && r.selChapter == s.selChapter
            && r.subjects == s.subjects && r.chapters == s.chapters && r.topics == s.topics
            && !Nested(r)
    ensures var r := HandleDelete(s, SubjectLevel, id, true, true, fetched).0;
            && r.selClass == s.selClass && r.selChapter == s.selChapter
            && r.chapters == s.chapters && r.topics == s.topics
            && !Nested(r)
  {
  }

  /** Adds at every level, and deletes of a chapter or topic, keep the
      selections nested. */
  lemma EditsKeepNested(s: Structure, level: Level, id: Id, confirmed: bool, ok: bool, fetched: seq<Id>)
    requires Nested(s)
    ensures Nested(HandleAdd(s, level, ok, fetched).0)
    ensures level == ChapterLevel || level == TopicLevel ==> Nested(HandleDelete(s, level, id, confirmed, ok, fetched).0)
  {
  }

  // ---- the page as written ----------------------------------------------

  /** The id the page reads from a class-subject row, which has no `id`:
      it is placed in URLs as the text "undefined". */
  const UndefinedId: Id := "undefined"

  /** The server parses every id in a URL as a UUID, and "undefined" is not
      one, so a call naming it is rejected whatever else holds. */
  predicate NamesUndefined(q: Request) {
    match q
    case CreateClass(_) => false
    case CreateSubject(classId, _) => classId == UndefinedId
    case CreateChapter(subjectId, _, _) => subjectId == UndefinedId
    case CreateTopic(chapterId, _) => chapterId == UndefinedId
    case Delete(_, id) => id == UndefinedId
  }

  /** `handleSubjectSelect` as written: the row is selected under the id
      "undefined", and `getChaptersBySubject` is not a function, so the
      emptied chapter list is never refilled. */
  function SelectSubjectAsWritten(s: Structure): (r: Structure)
    ensures r.selSubject == Some(UndefinedId) && r.selChapter.None? && r.chapters == [] && r.topics == []
    ensures r.classes == s.classes && r.selClass == s.selClass && r.subjects == s.subjects && r.newName == s.newName
  {
    SelectSubject(s, UndefinedId, [])
  }

  /** `handleAdd` as written: the subject branch throws at the missing
      `createSubject` before any call, so the alert shows and the name
      stays; a call naming "undefined" is sent and fails. */
  function HandleAddAsWritten(s: Structure, level: Level, ok: bool, fetched: seq<Id>): (r: (Structure, Option<Request>))
    ensures level == SubjectLevel && s.selClass.Some? ==> r == (s, None)
    ensures level != SubjectLevel ==> r.1 == HandleAdd(s, level, ok, fetched).1
    ensures r.1.Some? && NamesUndefined(r.1.value) ==> r.0 == s
  {
    if level == SubjectLevel && s.selClass.Some? && !IsBlank(s.newName) then (s, None)
    else
      var q := AddRequest(s, level);
      HandleAdd(s, level, ok && !(q.Some? && NamesUndefined(q.value)), fetched)
  }

  /** `handleDelete` as written: a subject row's delete names "undefined"
      and fails, and so does a chapter delete read under that subject. */
  function HandleDeleteAsWritten(s: Structure, level: Level, id: Id, confirmed: bool, ok: bool, fetched: seq<Id>)
    : (r: (Structure, Option<Request>))
    ensures r.1 == HandleDelete(s, level, id, confirmed, ok, fetched).1
    ensures id == UndefinedId ==> r.0 == s
  {
    HandleDelete(s, level, id, confirmed, ok && id != UndefinedId, fetched)
  }

  /** As written the subject column does nothing useful: adding a subject
      sends no call and keeps the typed name, selecting one never lists its
      chapters, so the first chapter added is numbered 1 and sent under
      "undefined" where it fails, and deleting a subject row fails. */
  lemma AsWrittenSubjectColumnInert(s: Structure, name: string, ok: bool, fetched: seq<Id>, confirmed: bool)
    requires s.selClass.Some? && !IsBlank(name)
    ensures HandleAddAsWritten(s.(newName := name), SubjectLevel, ok, fetched) == (s.(newName := name), None)
    ensures var t := SelectSubjectAsWritten(s).(newName := name);
            var r := HandleAddAsWritten(t, ChapterLevel, ok, fetched);
            r.1 == Some(CreateChapter(UndefinedId, name, 1)) && r.0 == t
    ensures HandleDeleteAsWritten(s, SubjectLevel, UndefinedId, confirmed, ok, fetched).0 == s
  {
  }

  /** With class-subject ids the same steps do what the column is for: the
      subject create is sent under the selected class and clears the name
      once it succeeds, and a chapter create goes under the chosen subject
      and is numbered after the chapters fetched for it. */
  lemma SubjectColumnWorks(s: Structure, subj: Id, name: string, fetched: seq<Id>, chapters: seq<Id>)
    requires s.selClass.Some? && !IsBlank(name)
    ensures var r := HandleAdd(s.(newName := name), SubjectLevel, true, fetched);
            r.1 == Some(CreateSubject(s.selClass.value, name)) && r.0.newName == "" && r.0.subjects == fetched
    ensures var t := SelectSubject(s, subj, chapters).(newName := name);
            HandleAdd(t, ChapterLevel, true, fetched).1 == Some(CreateChapter(subj, name, |chapters| + 1))
  {
  }
}
