/** `AcademicSessionServiceImpl`: the academic sessions, of which the
    service keeps at most one active. Every operation is one transaction, so
    a failure leaves the sessions as they were. Dates are day numbers. */
module Sessions {
  import opened Wrappers

  type Id = string

  datatype Session = Session(name: string, startDate: int, endDate: int, active: bool)

  type Sessions = map<Id, Session>

  datatype SessionError =
    | SessionNotFound   // "Session not found with ID: <id>"
    | NameTaken         // the unique `name` column refuses the save
    | SessionInUse      // a class-subject's foreign key refuses the delete

  /** The service's invariant. */
  predicate AtMostOneActive(s: Sessions) {
    forall a, b :: a in s && b in s && s[a].active && s[b].active ==> a == b
  }

  /** Some session other than `self` is called `name`. */
  predicate NameHeldByOther(s: Sessions, self: Option<Id>, name: string) {
    exists id :: id in s && Some(id) != self && s[id].name == name
  }

  /** What the unique `name` column guarantees. */
  predicate NamesUnique(s: Sessions) {
    forall a, b :: a in s && b in s && s[a].name == s[b].name ==> a == b
  }

  /** `deactivateAllOtherSessions`: every active session except `exclude`
      becomes inactive; nothing else changes. */
  function DeactivateOthers(s: Sessions, exclude: Option<Id>): (s2: Sessions)
    ensures s2.Keys == s.Keys
    ensures forall id :: id in s ==> s2[id] == s[id].(active := s[id].active && exclude == Some(id))
  {
    map id | id in s :: s[id].(active := s[id].active && exclude == Some(id))
  }

  /** `createSession`: an active new session first deactivates every other;
      a name another session holds fails the save, and the transaction
      then undoes the deactivation too. */
  function CreateSession(s: Sessions, session: Session, newId: Id): (r: Result<Sessions, SessionError>)
    requires newId !in s
    ensures r.Err? <==> NameHeldByOther(s, None, session.name)
    ensures r.Err? ==> r.error == NameTaken
    ensures r.Ok? ==> r.value.Keys == s.Keys + {newId} && r.value[newId] == session
    ensures r.Ok? && !session.active ==> forall id :: id in s ==> r.value[id] == s[id]
    ensures r.Ok? && session.active ==> forall id :: id in r.value ==> (r.value[id].active <==> id == newId)
    ensures r.Ok? ==> forall id :: id in s ==> r.value[id].(active := s[id].active) == s[id]
  {
    if NameHeldByOther(s, None, session.name) then Err(NameTaken)
    else Ok((if session.active then DeactivateOthers(s, None) else s)[newId := session])
  }

  /** `setActiveSession`: exactly `id` is active afterwards. */
  function SetActiveSession(s: Sessions, id: Id): (r: Result<Sessions, SessionError>)
    ensures r.Err? <==> id !in s
    ensures r.Ok? ==> r.value.Keys == s.Keys
                      && (forall other :: other in s ==> (r.value[other].active <==> other == id))
                      && (forall other :: other in s ==> r.value[other].(active := s[other].active) == s[other])
  {
    if id !in s then Err(SessionNotFound)
    else
      var s1 := DeactivateOthers(s, Some(id));
      Ok(s1[id := s1[id].(active := true)])
  }

  /** `updateSession`: name and dates are copied; activating an inactive
      session goes through `setActiveSession`, any other flag is copied as
      is. A name another session holds fails the save at commit. */
  function UpdateSession(s: Sessions, id: Id, details: Session): (r: Result<Sessions, SessionError>)
    ensures r == Err(SessionNotFound) <==> id !in s
    ensures r == Err(NameTaken) <==> id in s && NameHeldByOther(s, Some(id), details.name)
    ensures r.Err? ==> r == Err(SessionNotFound) || r == Err(NameTaken)
    ensures r.Ok? ==> r.value.Keys == s.Keys && r.value[id] == details
    ensures r.Ok? && details.active && !s[id].active ==>
              forall other :: other in s && other != id ==> !r.value[other].active
    ensures r.Ok? && !(details.active && !s[id].active) ==>
              forall other :: other in s && other != id ==> r.value[other] == s[other]
  {
    if id !in s then Err(SessionNotFound)
    else if NameHeldByOther(s, Some(id), details.name) then Err(NameTaken)
    else
      var existing := s[id];
      var named := existing.(name := details.name, startDate := details.startDate, endDate := details.endDate);
      if details.active && !existing.active then
        var s1 := SetActiveSession(s, id).value;
        Ok(s1[id := named.(active := true)])
      else
        Ok(s[id := named.(active := details.active)])
  }

  /** `deleteSession`: `deleteById`, which ignores an unknown id. `inUse`
      holds the sessions some class-subject names; the foreign key refuses
      deleting one of those. */
  function DeleteSession(s: Sessions, id: Id, inUse: set<Id>): (r: Result<Sessions, SessionError>)
    ensures r.Err? <==> id in s && id in inUse
    ensures r.Err? ==> r.error == SessionInUse
    ensures r.Ok? ==> r.value.Keys == s.Keys - {id}
    ensures r.Ok? ==> forall other :: other in r.value ==> r.value[other] == s[other]
  {
    if id in s && id in inUse then Err(SessionInUse) else Ok(s - {id})
  }

  /** `getActiveSession`: the active session, if any. */
  function ActiveSession(s: Sessions): (r: Option<Id>)
    requires AtMostOneActive(s)
    ensures r.Some? ==> r.value in s && s[r.value].active
    ensures r.None? <==> forall id :: id in s ==> !s[id].active
  {
    if exists id :: id in s && s[id].active then
      var id :| id in s && s[id].active; Some(id)
    else None
  }

  lemma CreateKeepsInvariant(s: Sessions, session: Session, newId: Id)
    requires newId !in s && AtMostOneActive(s)
    ensures CreateSession(s, session, newId).Ok? ==> AtMostOneActive(CreateSession(s, session, newId).value)
  {
  }

  /** Creates and updates keep session names unique, as the column does. */
  lemma SavesKeepNamesUnique(s: Sessions, session: Session, newId: Id, id: Id)
    requires newId !in s && NamesUnique(s)
    ensures CreateSession(s, session, newId).Ok? ==> NamesUnique(CreateSession(s, session, newId).value)
    ensures UpdateSession(s, id, session).Ok? ==> NamesUnique(UpdateSession(s, id, session).value)
  {
  }

  /** A delete never removes a session in use, so every name a
      class-subject holds still resolves afterwards. */
  lemma DeleteKeepsUsedSessions(s: Sessions, id: Id, inUse: set<Id>)
    requires inUse <= s.Keys
    ensures DeleteSession(s, id, inUse).Ok? ==> inUse <= DeleteSession(s, id, inUse).value.Keys
  {
  }

  lemma SetActiveKeepsInvariant(s: Sessions, id: Id)
    requires SetActiveSession(s, id).Ok?
    ensures AtMostOneActive(SetActiveSession(s, id).value)
    ensures ActiveSession(SetActiveSession(s, id).value) == Some(id)
  {
  }

  lemma UpdateKeepsInvariant(s: Sessions, id: Id, details: Session)
    requires AtMostOneActive(s) && UpdateSession(s, id, details).Ok?
    ensures AtMostOneActive(UpdateSession(s, id, details).value)
  {
  }

  lemma DeleteKeepsInvariant(s: Sessions, id: Id, inUse: set<Id>)
    requires AtMostOneActive(s)
    ensures DeleteSession(s, id, inUse).Ok? ==> AtMostOneActive(DeleteSession(s, id, inUse).value)
  {
  }

  /** Turning the active session off through an update leaves none active. */
  lemma UpdateCanLeaveNoneActive(s: Sessions, id: Id, details: Session)
    requires AtMostOneActive(s) && id in s && s[id].active && !details.active
    requires !NameHeldByOther(s, Some(id), details.name)
    ensures ActiveSession(UpdateSession(s, id, details).value).None?
  {
  }
}
