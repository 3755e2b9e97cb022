/** `AcademicServiceImpl`: classes, global subjects, the class–subject
    links of a session, chapters under a link and topics under a chapter.
    Tables are maps from id to row; `linkOrder` is the order in which the
    repository returns links. Deleting a link removes its chapters and their
    topics, as the entities' cascades and orphan removal do. */
module Academic {
  import opened Wrappers
  import Sessions
  import Questions

  type Id = string

  datatype AcademicClass = AcademicClass(name: string, order: Option<int>)
  datatype Subject = Subject(name: string, code: string, description: Option<string>)
  datatype ClassSubject = ClassSubject(classId: Id, subjectId: Id, sessionId: Id, active: bool)
  datatype Chapter = Chapter(name: string, chapterNumber: Option<int>, classSubject: Id)
  datatype Topic = Topic(name: string, chapter: Id)

  datatype Store = Store(
    classes: map<Id, AcademicClass>,
    subjects: map<Id, Subject>,
    links: map<Id, ClassSubject>,
    linkOrder: seq<Id>,
    chapters: map<Id, Chapter>,
    topics: map<Id, Topic>,
    sessions: Sessions.Sessions)

  /** What the database's foreign keys guarantee, and the repository order
      listing every link once. */
  ghost predicate Consistent(st: Store) {
    && (forall l :: l in st.links ==>
          st.links[l].classId in st.classes && st.links[l].subjectId in st.subjects
          && st.links[l].sessionId in st.sessions)
    && (forall c :: c in st.chapters ==> st.chapters[c].classSubject in st.links)
    && (forall t :: t in st.topics ==> st.topics[t].chapter in st.chapters)
    && Distinct(st.linkOrder)
    && (forall l :: l in st.links <==> l in st.linkOrder)
  }

  predicate Distinct(s: seq<Id>) {
    forall i, j :: 0 <= i < j < |s| ==> s[i] != s[j]
  }

  datatype AcademicError =
    | ClassNotFound          // "Class not found" (404 from getSubjectsByClass)
    | NoActiveSession        // "No active academic session found. ..."
    | NonUniqueResult        // an Optional finder that matched several rows
    | AlreadyAssigned        // "Subject is already assigned to this class for the current session."
    | SubjectNotFound
    | SessionNotFound
    | ClassSubjectNotFound
    | ChapterNotFound
    | Conflict               // 409 "Cannot delete subject because it is assigned ..."
    | InternalError(message: string)   // 500 "Failed to delete subject: <message>"
    | SubjectClassMissing    // a NOT NULL `academic_class_id`, where the table has one, refuses the save
    | ReferencedByQuestion   // a question's foreign key refuses the delete

  /** `sessionRepository.findByIsActiveTrue`. */
  function ActiveSession(sessions: Sessions.Sessions): (r: Found<Id>)
    ensures r.Single? ==> r.key in sessions && sessions[r.key].active
    ensures r.Missing? <==> forall id :: id in sessions ==> !sessions[id].active
    ensures Sessions.AtMostOneActive(sessions) ==> !r.Ambiguous?
  {
    var ids := set id | id in sessions && sessions[id].active;
    assert (exists id :: id in sessions && sessions[id].active) ==> ids != {} by {
      if exists id :: id in sessions && sessions[id].active {
        var id :| id in sessions && sessions[id].active;
        assert id in ids;
      }
    }
    assert Sessions.AtMostOneActive(sessions) && ids != {} ==> |ids| == 1 by {
      if Sessions.AtMostOneActive(sessions) && ids != {} {
        var k :| k in ids;
        assert ids == {k};
      }
    }
    FindUnique(ids)
  }
  /** The academic service reads the active session through the same finder
      as the session service, but as an optional lookup that fails on
      several rows; while at most one session is active both find the same
      session, or both find none. */
  lemma ActiveSessionAgrees(sessions: Sessions.Sessions)
    requires Sessions.AtMostOneActive(sessions)
    ensures ActiveSession(sessions).Single? <==> Sessions.ActiveSession(sessions).Some?
    ensures ActiveSession(sessions).Single? ==> ActiveSession(sessions).key == Sessions.ActiveSession(sessions).value
  {
    var r, o := ActiveSession(sessions), Sessions.ActiveSession(sessions);
    if r.Single? && o.Some? {
      assert sessions[r.key].active && sessions[o.value].active;
    }
  }


  /** The sessions some link names: the ones the session table's delete
      refuses while the class-subject foreign key points at them. */
  function SessionsInUse(links: map<Id, ClassSubject>): (r: set<Id>)
    ensures forall l :: l in links ==> links[l].sessionId in r
    ensures forall id :: id in r ==> exists l :: l in links && links[l].sessionId == id
  {
    set l | l in links :: links[l].sessionId
  }

  /** A session delete that goes through keeps the academic store
      consistent: no link is left naming a missing session. */
  lemma DeleteSessionKeepsConsistent(st: Store, id: Id)
    requires Consistent(st)
    ensures Sessions.DeleteSession(st.sessions, id, SessionsInUse(st.links)).Ok? ==>
              Consistent(st.(sessions := Sessions.DeleteSession(st.sessions, id, SessionsInUse(st.links)).value))
  {
  }

  /** `subjectRepository.findByCode`. */
  function SubjectByCode(subjects: map<Id, Subject>, code: string): (r: Found<Id>)
    ensures r.Single? ==> r.key in subjects && subjects[r.key].code == code
    ensures r.Missing? <==> forall id :: id in subjects ==> subjects[id].code != code
  {
    var ids := set id | id in subjects && subjects[id].code == code;
    assert (exists id :: id in subjects && subjects[id].code == code) ==> ids != {} by {
      if exists id :: id in subjects && subjects[id].code == code {
        var id :| id in subjects && subjects[id].code == code;
        assert id in ids;
      }
    }
    FindUnique(ids)
  }

  /** The links joining a class, a subject and a session. */
  function LinksFor(links: map<Id, ClassSubject>, classId: Id, subjectId: Id, sessionId: Id): set<Id> {
    set l | l in links && links[l].classId == classId && links[l].subjectId == subjectId
                       && links[l].sessionId == sessionId
  }

  function AddLink(st: Store, id: Id, link: ClassSubject): Store {
    st.(links := st.links[id := link], linkOrder := st.linkOrder + [id])
  }

  /** `createAndAssignSubject`: the subject is found by code or saved as
      submitted, then linked to the class in the active session unless that
      link exists already. The result is the new link's id. */
  function CreateAndAssignSubject(st: Store, classId: Id, subject: Subject, newSubjectId: Id, newLinkId: Id)
    : (r: Result<(Id, Store), AcademicError>)
    requires newSubjectId !in st.subjects && newLinkId !in st.links
    ensures classId !in st.classes ==> r == Err(ClassNotFound)
    ensures classId in st.classes && ActiveSession(st.sessions).Missing? ==> r == Err(NoActiveSession)
    ensures r.Ok? <==>
              && classId in st.classes && ActiveSession(st.sessions).Single?
              && !SubjectByCode(st.subjects, subject.code).Ambiguous?
              && (SubjectByCode(st.subjects, subject.code).Single? ==>
                    LinksFor(st.links, classId, SubjectByCode(st.subjects, subject.code).key, ActiveSession(st.sessions).key) == {})
    ensures r.Ok? ==> var (id, st2) := r.value;
              var subjectId := if SubjectByCode(st.subjects, subject.code).Single? then SubjectByCode(st.subjects, subject.code).key else newSubjectId;
              && id == newLinkId
              && st2.links == st.links[id := ClassSubject(classId, subjectId, ActiveSession(st.sessions).key, true)]
              && st2.linkOrder == st.linkOrder + [id]
              && st2.subjects == (if subjectId == newSubjectId then st.subjects[newSubjectId := subject] else st.subjects)
              && st2.classes == st.classes && st2.sessions == st.sessions
              && st2.chapters == st.chapters && st2.topics == st.topics
  {
    if classId !in st.classes then Err(ClassNotFound)
    else match ActiveSession(st.sessions)
      case Missing => Err(NoActiveSession)
      case Ambiguous => Err(NonUniqueResult)
      case Single(sessionId) =>
        match SubjectByCode(st.subjects, subject.code)
        case Ambiguous => Err(NonUniqueResult)
        case Missing =>
          var st1 := st.(subjects := st.subjects[newSubjectId := subject]);
          Ok((newLinkId, AddLink(st1, newLinkId, ClassSubject(classId, newSubjectId, sessionId, true))))
        case Single(subjectId) =>
          var existing := LinksFor(st.links, classId, subjectId, sessionId);
          if existing != {} then
            Err(if |existing| == 1 then AlreadyAssigned else NonUniqueResult)
          else
            Ok((newLinkId, AddLink(st, newLinkId, ClassSubject(classId, subjectId, sessionId, true))))
  }
  /** `createAndAssignSubject` read against the subjects table that
      Subject.java maps: a subject not found by code is saved as submitted,
      and nothing sets its class, which that mapping declares NOT NULL, so
      the save fails and the transaction rolls back. A subject already
      stored behaves as in `CreateAndAssignSubject`. Whether the deployed
      table has that column is open: the same entity file lacks the
      `description` other code uses. */
  function CreateAndAssignSubjectAsWritten(st: Store, classId: Id, subject: Subject, newSubjectId: Id, newLinkId: Id)
    : (r: Result<(Id, Store), AcademicError>)
    requires newSubjectId !in st.subjects && newLinkId !in st.links
    ensures r == Err(SubjectClassMissing) <==>
              classId in st.classes && ActiveSession(st.sessions).Single? && SubjectByCode(st.subjects, subject.code).Missing?
    ensures r.Ok? ==> r.value.1.subjects == st.subjects
    ensures r != Err(SubjectClassMissing) ==> r == CreateAndAssignSubject(st, classId, subject, newSubjectId, newLinkId)
  {
    if classId in st.classes && ActiveSession(st.sessions).Single? && SubjectByCode(st.subjects, subject.code).Missing?
    then Err(SubjectClassMissing)
    else CreateAndAssignSubject(st, classId, subject, newSubjectId, newLinkId)
  }

  /** Under the NOT NULL class column, a subject with a new code never gets
      created and assigned: with the class and one active session present
      the call fails, where without it the subject is stored and linked. */
  lemma AsWrittenNewSubjectFails(st: Store, classId: Id, subject: Subject, newSubjectId: Id, newLinkId: Id)
    requires newSubjectId !in st.subjects && newLinkId !in st.links
    requires classId in st.classes && ActiveSession(st.sessions).Single?
    requires forall id :: id in st.subjects ==> st.subjects[id].code != subject.code
    ensures CreateAndAssignSubjectAsWritten(st, classId, subject, newSubjectId, newLinkId).Err?
    ensures CreateAndAssignSubject(st, classId, subject, newSubjectId, newLinkId).Ok?
    ensures var st2 := CreateAndAssignSubject(st, classId, subject, newSubjectId, newLinkId).value.1;
            newSubjectId in st2.subjects && st2.subjects[newSubjectId] == subject
            && st2.links[newLinkId].subjectId == newSubjectId
  {
  }


  /** `assignSubjectToClass`: links whenever the three rows exist, with no
      duplicate check. */
  function AssignSubjectToClass(st: Store, classId: Id, subjectId: Id, sessionId: Id, newLinkId: Id)
    : (r: Result<(Id, Store), AcademicError>)
    requires newLinkId !in st.links
    ensures r.Ok? <==> classId in st.classes && subjectId in st.subjects && sessionId in st.sessions
    ensures r.Ok? ==> r.value.1 == AddLink(st, newLinkId, ClassSubject(classId, subjectId, sessionId, true))
                      && r.value.0 == newLinkId
  {
    if classId !in st.classes then Err(ClassNotFound)
    else if subjectId !in st.subjects then Err(SubjectNotFound)
    else if sessionId !in st.sessions then Err(SessionNotFound)
    else Ok((newLinkId, AddLink(st, newLinkId, ClassSubject(classId, subjectId, sessionId, true))))
  }

  /** Linking twice through `assignSubjectToClass` gives two links for the
      same triple, after which `createAndAssignSubject` for that subject can
      no longer tell "already assigned" from a non-unique lookup. */
  lemma AssignAllowsDuplicates(st: Store, classId: Id, subjectId: Id, sessionId: Id, l1: Id, l2: Id)
    requires l1 != l2 && l1 !in st.links && l2 !in st.links
    requires classId in st.classes && subjectId in st.subjects && sessionId in st.sessions
    ensures var st1 := AssignSubjectToClass(st, classId, subjectId, sessionId, l1).value.1;
            var st2 := AssignSubjectToClass(st1, classId, subjectId, sessionId, l2).value.1;
            {l1, l2} <= LinksFor(st2.links, classId, subjectId, sessionId)
  {
  }

  /** One row of `getSubjectsByClass`. */
  datatype ClassSubjectView = ClassSubjectView(
    classSubjectId: Id, subjectId: Id, subjectName: string, subjectCode: string,
    subjectDescription: Option<string>, sessionId: Id, sessionName: string, active: bool)

  function ViewOf(st: Store, l: Id): ClassSubjectView
    requires Consistent(st) && l in st.links
  {
    var cs := st.links[l];
    var s := st.subjects[cs.subjectId];
    ClassSubjectView(l, cs.subjectId, s.name, s.code, s.description, cs.sessionId, st.sessions[cs.sessionId].name, cs.active)
  }

  /** The links of a class, in repository order. */
  function LinksOfClass(st: Store, order: seq<Id>, classId: Id): (ls: seq<Id>)
    requires forall i :: 0 <= i < |order| ==> order[i] in st.links
    ensures forall i :: 0 <= i < |ls| ==> ls[i] in st.links && st.links[ls[i]].classId == classId
    ensures forall l :: l in ls <==> l in order && st.links[l].classId == classId
    ensures |ls| <= |order|
  {
    if |order| == 0 then []
    else
      var rest := LinksOfClass(st, order[1..], classId);
      if st.links[order[0]].classId == classId then [order[0]] + rest else rest
  }

  /** `getSubjectsByClass`: one view per link of the class, in repository order. */
  function GetSubjectsByClass(st: Store, classId: Id): (r: Result<seq<ClassSubjectView>, AcademicError>)
    requires Consistent(st)
    ensures r.Err? <==> classId !in st.classes
    ensures r.Ok? ==> forall l :: l in st.links && st.links[l].classId == classId <==>
                        exists i :: 0 <= i < |r.value| && r.value[i].classSubjectId == l
    ensures r.Ok? ==> forall i :: 0 <= i < |r.value| ==>
                        var l := r.value[i].classSubjectId;
                        l in st.links && r.value[i].subjectId == st.links[l].subjectId
                        && r.value[i].subjectCode == st.subjects[st.links[l].subjectId].code
  {
    if classId !in st.classes then Err(ClassNotFound)
    else
      var ls := LinksOfClass(st, st.linkOrder, classId);
      var views := seq(|ls|, i requires 0 <= i < |ls| => ViewOf(st, ls[i]));
      assert forall i :: 0 <= i < |ls| ==> views[i].classSubjectId == ls[i];
      Ok(views)
  }

  /** The question names the link, a chapter under it or a topic under
      one of those chapters: the rows the link's delete would cascade to. */
  predicate QuestionUnder(st: Store, q: Questions.Question, id: Id) {
    || q.content.classSubject == Some(id)
    || (q.content.chapter.Some? && ChapterUnder(st, q.content.chapter.value, id))
    || (q.content.topic.Some? && q.content.topic.value in st.topics
        && ChapterUnder(st, st.topics[q.content.topic.value].chapter, id))
  }

  predicate ChapterUnder(st: Store, c: Id, id: Id) {
    c in st.chapters && st.chapters[c].classSubject == id
  }

  /** Every link, chapter and topic the question names is stored: the
      question table's foreign keys. */
  predicate QuestionResolves(st: Store, q: Questions.Question) {
    && (q.content.classSubject.Some? ==> q.content.classSubject.value in st.links)
    && (q.content.chapter.Some? ==> q.content.chapter.value in st.chapters)
    && (q.content.topic.Some? ==> q.content.topic.value in st.topics)
  }

  /** `deleteClassSubject`: the link, its chapters and their topics go; an
      unknown id is a no-op. Questions keep foreign keys to all three
      without a cascade, so a link that some question sits under cannot be
      deleted. */
  function DeleteClassSubject(st: Store, id: Id, questions: map<Id, Questions.Question>)
    : (r: Result<Store, AcademicError>)
    ensures r.Err? <==> id in st.links && exists q :: q in questions && QuestionUnder(st, questions[q], id)
    ensures r.Err? ==> r.error == ReferencedByQuestion
    ensures id !in st.links ==> r == Ok(st)
    ensures r.Ok? ==> r.value.links.Keys == st.links.Keys - {id}
    ensures r.Ok? && id in st.links ==>
              forall c :: c in r.value.chapters <==> c in st.chapters && st.chapters[c].classSubject != id
    ensures r.Ok? && id in st.links ==>
              forall t :: t in r.value.topics <==> t in st.topics && st.topics[t].chapter in r.value.chapters
    ensures r.Ok? ==> forall c :: c in r.value.chapters ==> r.value.chapters[c] == st.chapters[c]
  {
    if id !in st.links then Ok(st)
    else if exists q :: q in questions && QuestionUnder(st, questions[q], id) then Err(ReferencedByQuestion)
    else
      var chapters := map c | c in st.chapters && st.chapters[c].classSubject != id :: st.chapters[c];
      var topics := map t | t in st.topics && st.topics[t].chapter in chapters :: st.topics[t];
      Ok(st.(links := st.links - {id}, linkOrder := Without(st.linkOrder, id), chapters := chapters, topics := topics))
  }

  /** Deleting a link leaves no chapter or topic dangling. */
  lemma DeleteClassSubjectKeepsConsistent(st: Store, id: Id, questions: map<Id, Questions.Question>)
    requires Consistent(st)
    ensures DeleteClassSubject(st, id, questions).Ok? ==> Consistent(DeleteClassSubject(st, id, questions).value)
  {
    WithoutDistinct(st.linkOrder, id);
  }

  /** A link delete that goes through leaves every question's link,
      chapter and topic in place. */
  lemma DeleteClassSubjectKeepsQuestionRefs(st: Store, id: Id, questions: map<Id, Questions.Question>)
    requires Consistent(st)
    requires forall q :: q in questions ==> QuestionResolves(st, questions[q])
    ensures DeleteClassSubject(st, id, questions).Ok? ==>
              forall q :: q in questions ==> QuestionResolves(DeleteClassSubject(st, id, questions).value, questions[q])
  {
    var r := DeleteClassSubject(st, id, questions);
    if r.Ok? && id in st.links {
      forall q | q in questions ensures QuestionResolves(r.value, questions[q]) {
        var c := questions[q].content;
        assert !QuestionUnder(st, questions[q], id);
        if c.topic.Some? {
          assert st.topics[c.topic.value].chapter in st.chapters;
        }
      }
    }
  }

  function Without(s: seq<Id>, x: Id): (r: seq<Id>)
    ensures forall y :: y in r <==> y in s && y != x
  {
    if |s| == 0 then []
    else if s[0] == x then Without(s[1..], x)
    else [s[0]] + Without(s[1..], x)
  }

  /** Removing an element from a repetition-free order keeps it repetition-free. */
  lemma {:induction false} WithoutDistinct(s: seq<Id>, x: Id)
    requires Distinct(s)
    ensures Distinct(Without(s, x))
  {
    if |s| > 0 {
      assert Distinct(s[1..]) by {
        forall i, j | 0 <= i < j < |s[1..]| ensures s[1..][i] != s[1..][j] {
          assert s[1..][i] == s[i + 1] && s[1..][j] == s[j + 1];
        }
      }
      WithoutDistinct(s[1..], x);
      if s[0] != x {
        var rest := Without(s[1..], x);
        assert s[0] !in rest;
        var r := [s[0]] + rest;
        forall i, j | 0 <= i < j < |r| ensures r[i] != r[j] {
          if i == 0 {
            assert r[j] == rest[j - 1];
          } else {
            assert r[i] == rest[i - 1] && r[j] == rest[j - 1];
          }
        }
      }
    }
  }

  /** `deleteSubject`: a subject still linked to a class violates the link's
      foreign key (409); any other database failure is reported with its
      message (500); an unknown id deletes nothing. */
  function DeleteSubject(st: Store, id: Id, dbFailure: Option<string>): (r: Result<Store, AcademicError>)
    ensures dbFailure.Some? ==> r == Err(InternalError("Failed to delete subject: " + dbFailure.value))
    ensures dbFailure.None? ==> (r == Err(Conflict) <==> exists l :: l in st.links && st.links[l].subjectId == id)
    ensures r.Ok? ==> r.value == st.(subjects := st.subjects - {id})
  {
    if dbFailure.Some? then Err(InternalError("Failed to delete subject: " + dbFailure.value))
    else if exists l :: l in st.links && st.links[l].subjectId == id then Err(Conflict)
    else Ok(st.(subjects := st.subjects - {id}))
  }

  /** Deleting an unlinked subject keeps the store consistent. */
  lemma DeleteSubjectKeepsConsistent(st: Store, id: Id)
    requires Consistent(st) && DeleteSubject(st, id, None).Ok?
    ensures Consistent(DeleteSubject(st, id, None).value)
  {
  }

  /** `createChapter`: attached to an existing link. */
  function CreateChapter(st: Store, chapter: Chapter, classSubjectId: Id, newId: Id): (r: Result<Store, AcademicError>)
    requires newId !in st.chapters
    ensures r.Err? <==> classSubjectId !in st.links
    ensures r.Ok? ==> r.value == st.(chapters := st.chapters[newId := chapter.(classSubject := classSubjectId)])
    ensures r.Ok? && Consistent(st) ==> Consistent(r.value)
  {
    if classSubjectId !in st.links then Err(ClassSubjectNotFound)
    else Ok(st.(chapters := st.chapters[newId := chapter.(classSubject := classSubjectId)]))
  }

  /** `createTopic`: attached to an existing chapter. */
  function CreateTopic(st: Store, topic: Topic, chapterId: Id, newId: Id): (r: Result<Store, AcademicError>)
    requires newId !in st.topics
    ensures r.Err? <==> chapterId !in st.chapters
    ensures r.Ok? ==> r.value == st.(topics := st.topics[newId := topic.(chapter := chapterId)])
    ensures r.Ok? && Consistent(st) ==> Consistent(r.value)
  {
    if chapterId !in st.chapters then Err(ChapterNotFound)
    else Ok(st.(topics := st.topics[newId := topic.(chapter := chapterId)]))
  }

  /** A successful `createAndAssignSubject` keeps the store consistent, and
      the class's subject list then shows the new link. */
  lemma CreateAndAssignListed(st: Store, classId: Id, subject: Subject, newSubjectId: Id, newLinkId: Id)
    requires Consistent(st)
    requires newSubjectId !in st.subjects && newLinkId !in st.links
    requires CreateAndAssignSubject(st, classId, subject, newSubjectId, newLinkId).Ok?
    ensures var st2 := CreateAndAssignSubject(st, classId, subject, newSubjectId, newLinkId).value.1;
            && Consistent(st2)
            && exists i :: 0 <= i < |GetSubjectsByClass(st2, classId).value|
                 && GetSubjectsByClass(st2, classId).value[i].classSubjectId == newLinkId
  {
    var st2 := CreateAndAssignSubject(st, classId, subject, newSubjectId, newLinkId).value.1;
    assert newLinkId in st2.links && st2.links[newLinkId].classId == classId;
    assert Consistent(st2) by {
      forall i, j | 0 <= i < j < |st2.linkOrder| ensures st2.linkOrder[i] != st2.linkOrder[j] {
        if j == |st.linkOrder| {
          assert st2.linkOrder[i] == st.linkOrder[i];
          assert st.linkOrder[i] in st.links;
        }
      }
    }
    var ls := LinksOfClass(st2, st2.linkOrder, classId);
    assert newLinkId in st2.linkOrder;
    var i :| 0 <= i < |ls| && ls[i] == newLinkId;
    assert GetSubjectsByClass(st2, classId).value[i].classSubjectId == newLinkId;
  }
}
