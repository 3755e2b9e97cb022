/** The two scheduled jobs over the institutes: `SubscriptionScheduler`'s
    daily expiry check with its grace period, and `AiUsageScheduler`'s
    monthly usage reset. `today` is a day number. */
module Schedulers {
  import opened Wrappers
  import opened Institutes

  /** `findExpiredInstitutes(today)`: active with an expiry strictly before
      today (a null expiry never compares). */
  predicate Expired(inst: Institute, today: int) {
    inst.status == Active && inst.expiryDate.Some? && inst.expiryDate.value < today
  }

  function FindExpired(st: Institutes, today: int): (ids: set<Id>)
    ensures forall id :: id in ids <==> id in st && Expired(st[id], today)
  {
    set id | id in st && Expired(st[id], today)
  }

  /** An examined institute is past its grace period when today is after
      expiry plus `gracePeriodDays`. */
  predicate PastGrace(inst: Institute, today: int)
    requires inst.expiryDate.Some?
  {
    today > inst.expiryDate.value + inst.gracePeriodDays
  }

  /** `checkExpiredSubscriptions`. */
  function CheckExpiredSubscriptions(st: Institutes, today: int): (st2: Institutes)
    ensures st2.Keys == st.Keys
    ensures forall id :: id in st ==>
              (st2[id].status == Suspended && st[id].status != Suspended <==> Expired(st[id], today) && PastGrace(st[id], today))
    ensures forall id :: id in st ==> st2[id] == st[id] || st2[id] == st[id].(status := Suspended)
  {
    map id | id in st :: if Expired(st[id], today) && PastGrace(st[id], today) then st[id].(status := Suspended) else st[id]
  }

  /** An expired institute within its grace period stays active. */
  lemma WithinGraceStaysActive(st: Institutes, today: int, id: Id)
    requires id in st && Expired(st[id], today) && !PastGrace(st[id], today)
    ensures CheckExpiredSubscriptions(st, today)[id].status == Active
  {
  }

  /** A second run on the same day finds nothing more to suspend. */
  lemma CheckIdempotent(st: Institutes, today: int)
    ensures CheckExpiredSubscriptions(CheckExpiredSubscriptions(st, today), today) == CheckExpiredSubscriptions(st, today)
  {
  }

  /** Once every expired institute is past grace, no active institute is left expired. */
  lemma NoneLeftExpired(st: Institutes, today: int)
    requires forall id :: id in st && Expired(st[id], today) ==> PastGrace(st[id], today)
    ensures FindExpired(CheckExpiredSubscriptions(st, today), today) == {}
  {
    var st2 := CheckExpiredSubscriptions(st, today);
    forall id | id in st2 ensures !Expired(st2[id], today) {
    }
  }

  /** `resetAiUsage`: every institute's monthly usage is zero, nothing else changes. */
  function ResetAiUsage(st: Institutes): (st2: Institutes)
    ensures st2.Keys == st.Keys
    ensures forall id :: id in st ==> st2[id].aiUsedCurrentMonth == 0
    ensures forall id :: id in st ==> st2[id].(aiUsedCurrentMonth := st[id].aiUsedCurrentMonth) == st[id]
  {
    map id | id in st :: st[id].(aiUsedCurrentMonth := 0)
  }

  lemma ResetIdempotent(st: Institutes)
    ensures ResetAiUsage(ResetAiUsage(st)) == ResetAiUsage(st)
  {
  }
}
