/** `InstituteServiceImpl`: the tenants' institute records and their
    subscription. Dates are day numbers, so adding days is addition; adding
    months is the calendar's business and comes in as `plusMonths`. The
    logo upload is reduced to whether a non-empty file came with the
    request. */
module Institutes {
  import opened Wrappers
  import opened Text

  type Id = string

  datatype InstituteType = School | College | University | Coaching
  datatype Status = Active | Inactive | Suspended
  datatype Plan = Free | Basic | Premium | Enterprise
  datatype BillingCycle = Monthly | Yearly

  /** The descriptive fields `updateInstitute` copies from the request. */
  datatype Profile = Profile(
    name: string, shortName: Option<string>, address: Option<string>, city: Option<string>,
    district: Option<string>, division: Option<string>, country: Option<string>,
    contactEmail: Option<string>, contactPhone: Option<string>, website: Option<string>,
    establishedYear: Option<int>)

  datatype Institute = Institute(
    profile: Profile, code: string, itype: Option<InstituteType>, logoPath: Option<string>,
    status: Status, planType: Plan, billingCycle: BillingCycle,
    planStartDate: Option<int>, planEndDate: Option<int>, gracePeriodDays: int,
    maxTeachers: int, maxStudents: int, aiLimitPerMonth: int, aiUsedCurrentMonth: int,
    storageLimitMb: int, deleted: bool, expiryDate: Option<int>)

  type Institutes = map<Id, Institute>

  datatype InstituteError =
    | CodeExists          // "Institute code '<code>' already exists."
    | NameExists          // the save breaks the unique constraint on `name`
    | InstituteNotFound   // "Institute not found with ID: <id>"

  /** `existsByCode`. */
  predicate CodeTaken(st: Institutes, code: string) {
    exists id :: id in st && st[id].code == code
  }

  /** An institute other than `self` already has `name`; the `unique`
      column then rejects the save. Soft-deleted rows still hold their name. */
  predicate NameTakenByOther(st: Institutes, self: Option<Id>, name: string) {
    exists id :: id in st && Some(id) != self && st[id].profile.name == name
  }

  /** The two unique columns of the table: no two institutes share a code
      or a name. */
  predicate KeysUnique(st: Institutes) {
    forall a, b :: a in st && b in st && a != b ==> st[a].code != st[b].code && st[a].profile.name != st[b].profile.name
  }

  /** `createInstitute`: a taken code is refused up front and a taken name
      by the save; a logo gets a path from the code; a missing plan start
      is today and a missing expiry a month on. */
  function CreateInstitute(st: Institutes, inst: Institute, hasLogo: bool, newId: Id, today: int,
                           plusMonths: (int, int) -> int): (r: Result<Institutes, InstituteError>)
    requires newId !in st
    ensures r.Err? <==> CodeTaken(st, inst.code) || NameTakenByOther(st, None, inst.profile.name)
    ensures r == Err(CodeExists) <==> CodeTaken(st, inst.code)
    ensures r.Ok? ==> r.value.Keys == st.Keys + {newId} && (forall id :: id in st ==> r.value[id] == st[id])
    ensures r.Ok? ==> var saved := r.value[newId];
              && saved.planStartDate == Some(inst.planStartDate.GetOr(today))
              && saved.expiryDate == Some(inst.expiryDate.GetOr(plusMonths(today, 1)))
              && saved.logoPath == (if hasLogo then Some("uploads/logos/" + inst.code + ".png") else inst.logoPath)
              && saved.(planStartDate := inst.planStartDate, expiryDate := inst.expiryDate, logoPath := inst.logoPath) == inst
  {
    if CodeTaken(st, inst.code) then Err(CodeExists)
    else if NameTakenByOther(st, None, inst.profile.name) then Err(NameExists)
    else
      var withLogo := if hasLogo then inst.(logoPath := Some("uploads/logos/" + inst.code + ".png")) else inst;
      var withStart := if inst.planStartDate.None? then withLogo.(planStartDate := Some(today)) else withLogo;
      var withExpiry := if inst.expiryDate.None? then withStart.(expiryDate := Some(plusMonths(today, 1))) else withStart;
      Ok(st[newId := withExpiry])
  }

  /** `getInstitute`. */
  function GetInstitute(st: Institutes, id: Id): (r: Result<Institute, InstituteError>)
    ensures r.Ok? <==> id in st
    ensures r.Ok? ==> r.value == st[id]
  {
    if id in st then Ok(st[id]) else Err(InstituteNotFound)
  }

  /** `updateInstitute`: the profile and the four limits come from the
      request; a logo gets a path from the code and the clock in
      milliseconds; a name another institute holds is refused by the save. */
  function UpdateInstitute(st: Institutes, id: Id, info: Institute, hasLogo: bool, nowMillis: int)
    : (r: Result<Institutes, InstituteError>)
    ensures r == Err(InstituteNotFound) <==> id !in st
    ensures r == Err(NameExists) <==> id in st && NameTakenByOther(st, Some(id), info.profile.name)
    ensures r.Err? ==> r == Err(InstituteNotFound) || r == Err(NameExists)
    ensures r.Ok? ==> r.value.Keys == st.Keys && (forall other :: other in st && other != id ==> r.value[other] == st[other])
    ensures r.Ok? ==> var (before, after) := (st[id], r.value[id]);
              && after.profile == info.profile
              && after.maxTeachers == info.maxTeachers && after.maxStudents == info.maxStudents
              && after.aiLimitPerMonth == info.aiLimitPerMonth && after.storageLimitMb == info.storageLimitMb
              && after.code == before.code && after.itype == before.itype && after.planType == before.planType
              && after.billingCycle == before.billingCycle && after.status == before.status
              && after.aiUsedCurrentMonth == before.aiUsedCurrentMonth && after.expiryDate == before.expiryDate
              && after.deleted == before.deleted
              && (hasLogo ==> after.logoPath == Some("uploads/logos/" + before.code + "_" + IntToString(nowMillis) + ".png"))
              && (!hasLogo ==> after.logoPath == before.logoPath)
  {
    var inst :- GetInstitute(st, id);
    if NameTakenByOther(st, Some(id), info.profile.name) then Err(NameExists)
    else
    var updated := inst.(profile := info.profile, maxTeachers := info.maxTeachers, maxStudents := info.maxStudents,
                         aiLimitPerMonth := info.aiLimitPerMonth, storageLimitMb := info.storageLimitMb);
    var withLogo := if hasLogo then updated.(logoPath := Some("uploads/logos/" + inst.code + "_" + IntToString(nowMillis) + ".png"))
                    else updated;
    Ok(st[id := withLogo])
  }

  /** `deleteInstitute` (soft), `activateInstitute`, `suspendInstitute`. */
  datatype StatusChange = Delete | Activate | Suspend

  function ChangeStatus(st: Institutes, id: Id, change: StatusChange): (r: Result<Institutes, InstituteError>)
    ensures r.Err? <==> id !in st
    ensures r.Ok? ==> r.value.Keys == st.Keys && (forall other :: other in st && other != id ==> r.value[other] == st[other])
    ensures r.Ok? ==> r.value[id].status == (match change case Delete => Inactive case Activate => Active case Suspend => Suspended)
    ensures r.Ok? ==> r.value[id].deleted == (change.Delete? || st[id].deleted)
    ensures r.Ok? ==> r.value[id].(status := st[id].status, deleted := st[id].deleted) == st[id]
  {
    var inst :- GetInstitute(st, id);
    var changed := match change
      case Delete => inst.(deleted := true, status := Inactive)
      case Activate => inst.(status := Active)
      case Suspend => inst.(status := Suspended);
    Ok(st[id := changed])
  }

  /** The limits a plan grants: (maxTeachers, maxStudents, aiLimitPerMonth). */
  function PlanLimits(plan: Plan): (limits: (int, int, int))
    ensures limits.0 > 0 && limits.1 > 0 && limits.2 > 0
    ensures limits.0 < limits.1 < limits.2
  {
    match plan
    case Basic => (10, 100, 500)
    case Premium => (50, 1000, 5000)
    case Enterprise => (500, 10000, 50000)
    case Free => (5, 50, 100)
  }

  /** A dearer plan never grants less. */
  lemma PlanLimitsMonotone(p: Plan, q: Plan)
    requires PlanRank(p) <= PlanRank(q)
    ensures PlanLimits(p).0 <= PlanLimits(q).0 && PlanLimits(p).1 <= PlanLimits(q).1 && PlanLimits(p).2 <= PlanLimits(q).2
  {
  }

  function PlanRank(p: Plan): nat {
    match p
    case Free => 0
    case Basic => 1
    case Premium => 2
    case Enterprise => 3
  }

  /** `upgradePlan`: the plan starts today and runs `durationMonths`; the
      expiry moves to the plan's end; the limits follow the plan table
      (storage is left as it was). */
  function UpgradePlan(st: Institutes, id: Id, plan: Plan, durationMonths: int, today: int,
                       plusMonths: (int, int) -> int): (r: Result<Institutes, InstituteError>)
    ensures r.Err? <==> id !in st
    ensures r.Ok? ==> r.value.Keys == st.Keys && (forall other :: other in st && other != id ==> r.value[other] == st[other])
    ensures r.Ok? ==> var after := r.value[id];
              && after.planType == plan && after.planStartDate == Some(today)
              && after.planEndDate == Some(plusMonths(today, durationMonths)) && after.expiryDate == after.planEndDate
              && (after.maxTeachers, after.maxStudents, after.aiLimitPerMonth) == PlanLimits(plan)
              && after.storageLimitMb == st[id].storageLimitMb && after.status == st[id].status
              && after.aiUsedCurrentMonth == st[id].aiUsedCurrentMonth
  {
    var inst :- GetInstitute(st, id);
    var end := plusMonths(today, durationMonths);
    var (teachers, students, ai) := PlanLimits(plan);
    Ok(st[id := inst.(planType := plan, planStartDate := Some(today), planEndDate := Some(end),
                      maxTeachers := teachers, maxStudents := students, aiLimitPerMonth := ai,
                      expiryDate := Some(end))])
  }

  /** `incrementAiUsage`: adds `tokens` with Java `int` arithmetic and no cap. */
  function IncrementAiUsage(st: Institutes, id: Id, tokens: int): (r: Result<Institutes, InstituteError>)
    ensures r.Err? <==> id !in st
    ensures r.Ok? ==> r.value.Keys == st.Keys && (forall other :: other in st && other != id ==> r.value[other] == st[other])
    ensures r.Ok? ==> r.value[id] == st[id].(aiUsedCurrentMonth := WrapInt(st[id].aiUsedCurrentMonth + tokens))
  {
    var inst :- GetInstitute(st, id);
    Ok(st[id := inst.(aiUsedCurrentMonth := WrapInt(inst.aiUsedCurrentMonth + tokens))])
  }

  /** Usage may pass the monthly limit: nothing stops an increment at it. */
  lemma UsageNotCapped(st: Institutes, id: Id, tokens: int)
    requires id in st && 0 <= st[id].aiUsedCurrentMonth <= st[id].aiLimitPerMonth
    requires 0 < tokens && st[id].aiLimitPerMonth + tokens <= IntMax
    requires st[id].aiUsedCurrentMonth == st[id].aiLimitPerMonth
    ensures IncrementAiUsage(st, id, tokens).value[id].aiUsedCurrentMonth > st[id].aiLimitPerMonth
  {
  }

  /** A successful create keeps codes and names unique. */
  lemma CreateKeepsKeysUnique(st: Institutes, inst: Institute, hasLogo: bool, newId: Id, today: int,
                              plusMonths: (int, int) -> int)
    requires newId !in st && KeysUnique(st)
    requires CreateInstitute(st, inst, hasLogo, newId, today, plusMonths).Ok?
    ensures KeysUnique(CreateInstitute(st, inst, hasLogo, newId, today, plusMonths).value)
  {
    var r := CreateInstitute(st, inst, hasLogo, newId, today, plusMonths).value;
    forall a, b | a in r && b in r && a != b
      ensures r[a].code != r[b].code && r[a].profile.name != r[b].profile.name
    {
      if a == newId || b == newId {
        var other := if a == newId then b else a;
        assert r[other] == st[other];
        assert r[newId].code == inst.code && r[newId].profile.name == inst.profile.name;
      }
    }
  }

  /** A successful update keeps codes and names unique. */
  lemma UpdateKeepsKeysUnique(st: Institutes, id: Id, info: Institute, hasLogo: bool, nowMillis: int)
    requires KeysUnique(st)
    requires UpdateInstitute(st, id, info, hasLogo, nowMillis).Ok?
    ensures KeysUnique(UpdateInstitute(st, id, info, hasLogo, nowMillis).value)
  {
    var r := UpdateInstitute(st, id, info, hasLogo, nowMillis).value;
    forall a, b | a in r && b in r && a != b
      ensures r[a].code != r[b].code && r[a].profile.name != r[b].profile.name
    {
      if a == id || b == id {
        var other := if a == id then b else a;
        assert r[other] == st[other];
        assert !NameTakenByOther(st, Some(id), info.profile.name);
      }
    }
  }

  /** Changing one institute without touching its code or name keeps both
      unique. */
  lemma KeysUniqueKept(st: Institutes, r: Institutes, id: Id)
    requires KeysUnique(st) && id in st
    requires r.Keys == st.Keys && (forall other :: other in st && other != id ==> r[other] == st[other])
    requires r[id].code == st[id].code && r[id].profile.name == st[id].profile.name
    ensures KeysUnique(r)
  {
    forall a, b | a in r && b in r && a != b
      ensures r[a].code != r[b].code && r[a].profile.name != r[b].profile.name
    {
      assert r[a].code == st[a].code && r[a].profile.name == st[a].profile.name;
      assert r[b].code == st[b].code && r[b].profile.name == st[b].profile.name;
    }
  }

  /** Status changes and plan upgrades touch neither code nor name, so they
      keep both unique. */
  lemma StatusAndPlanKeepKeysUnique(st: Institutes, id: Id, change: StatusChange, plan: Plan, months: int,
                                    today: int, plusMonths: (int, int) -> int)
    requires KeysUnique(st)
    ensures ChangeStatus(st, id, change).Ok? ==> KeysUnique(ChangeStatus(st, id, change).value)
    ensures UpgradePlan(st, id, plan, months, today, plusMonths).Ok? ==>
              KeysUnique(UpgradePlan(st, id, plan, months, today, plusMonths).value)
  {
    if id in st {
      KeysUniqueKept(st, ChangeStatus(st, id, change).value, id);
      KeysUniqueKept(st, UpgradePlan(st, id, plan, months, today, plusMonths).value, id);
    }
  }

  /** Of two status changes the second decides the status; a deletion
      stays, since no change clears the flag. */
  lemma StatusLastWins(st: Institutes, id: Id, first: StatusChange, second: StatusChange)
    requires id in st
    ensures var twice := ChangeStatus(ChangeStatus(st, id, first).value, id, second).value;
            var once := ChangeStatus(st, id, second).value;
            && twice[id].status == once[id].status
            && twice[id].deleted == (first.Delete? || once[id].deleted)
            && (!first.Delete? ==> twice == once)
  {
  }

  /** Of two upgrades only the second shows: it overwrites every field the
      first set. */
  lemma UpgradeLastWins(st: Institutes, id: Id, p: Plan, m: int, d: int, q: Plan, n: int, e: int,
                        plusMonths: (int, int) -> int)
    requires id in st
    ensures UpgradePlan(UpgradePlan(st, id, p, m, d, plusMonths).value, id, q, n, e, plusMonths)
            == UpgradePlan(st, id, q, n, e, plusMonths)
  {
    var once := UpgradePlan(st, id, p, m, d, plusMonths).value;
    var twice := UpgradePlan(once, id, q, n, e, plusMonths).value;
    var direct := UpgradePlan(st, id, q, n, e, plusMonths).value;
    assert twice[id] == direct[id];
    assert twice == direct;
  }
}
