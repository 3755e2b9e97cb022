/** The two derived figures of the subscription management page: how many
    institutes pay, and the estimated monthly revenue. An institute's plan
    arrives as the JSON string of its `planType`, possibly null. */
module SubscriptionPage {
  import opened Wrappers

  datatype InstituteRow = InstituteRow(planType: Option<string>)

  /** How many rows carry exactly this plan name. */
  function CountPlan(rows: seq<InstituteRow>, plan: string): (n: nat)
    ensures n <= |rows|
  {
    if |rows| == 0 then 0
    else (if rows[0].planType == Some(plan) then 1 else 0) + CountPlan(rows[1..], plan)
  }

  /** `totalSubscribers`: the rows whose plan is not "FREE" (a missing plan counts). */
  function TotalSubscribers(rows: seq<InstituteRow>): (n: nat)
    ensures n + CountPlan(rows, "FREE") == |rows|
  {
    if |rows| == 0 then 0
    else (if rows[0].planType != Some("FREE") then 1 else 0) + TotalSubscribers(rows[1..])
  }

  /** Nobody subscribes exactly when every institute is on the free plan. */
  lemma {:induction false} NoSubscribersIffAllFree(rows: seq<InstituteRow>)
    ensures TotalSubscribers(rows) == 0 <==> forall i :: 0 <= i < |rows| ==> rows[i].planType == Some("FREE")
  {
    if |rows| > 0 {
      NoSubscribersIffAllFree(rows[1..]);
      assert forall i :: 1 <= i < |rows| ==> rows[i] == rows[1..][i - 1];
    }
  }

  /** The monthly price the page assumes for a plan; unknown names cost nothing. */
  function Price(plan: Option<string>): (p: nat)
    ensures p > 0 ==> plan != Some("FREE")
  {
    match plan
    case Some("BASIC") => 29
    case Some("PREMIUM") => 99
    case Some("ENTERPRISE") => 299
    case _ => 0
  }

  /** The revenue as a sum over the rows. */
  function Revenue(rows: seq<InstituteRow>): (r: nat)
    ensures r <= 299 * |rows|
  {
    if |rows| == 0 then 0 else Price(rows[0].planType) + Revenue(rows[1..])
  }

  /** The sum is the plan counts weighted by their prices. */
  lemma {:induction false} RevenueByPlan(rows: seq<InstituteRow>)
    ensures Revenue(rows) == 29 * CountPlan(rows, "BASIC") + 99 * CountPlan(rows, "PREMIUM")
                             + 299 * CountPlan(rows, "ENTERPRISE")
  {
    if |rows| > 0 {
      RevenueByPlan(rows[1..]);
    }
  }

  /** Revenue over two lists is the sum of their revenues. */
  lemma {:induction false} RevenueAdditive(a: seq<InstituteRow>, b: seq<InstituteRow>)
    ensures Revenue(a + b) == Revenue(a) + Revenue(b)
  {
    if |a| == 0 {
      assert a + b == b;
    } else {
      assert (a + b)[1..] == a[1..] + b;
      RevenueAdditive(a[1..], b);
    }
  }

  /** Subscriber counts over two lists add up the same way. */
  lemma {:induction false} SubscribersAdditive(a: seq<InstituteRow>, b: seq<InstituteRow>)
    ensures TotalSubscribers(a + b) == TotalSubscribers(a) + TotalSubscribers(b)
  {
    if |a| == 0 {
      assert a + b == b;
    } else {
      assert (a + b)[1..] == a[1..] + b;
      SubscribersAdditive(a[1..], b);
    }
  }

  /** Any revenue at all means someone subscribes. */
  lemma {:induction false} RevenueNeedsSubscribers(rows: seq<InstituteRow>)
    ensures Revenue(rows) > 0 ==> TotalSubscribers(rows) > 0
  {
    if |rows| > 0 {
      RevenueNeedsSubscribers(rows[1..]);
    }
  }

  /** `calculateRevenue`, the accumulating loop. */
  method CalculateRevenue(rows: seq<InstituteRow>) returns (revenue: int)
    ensures revenue == 29 * CountPlan(rows, "BASIC") + 99 * CountPlan(rows, "PREMIUM")
                       + 299 * CountPlan(rows, "ENTERPRISE")
  {
    revenue := 0;
    var i := 0;
    while i < |rows|
      invariant 0 <= i <= |rows|
      invariant revenue == Revenue(rows[..i])
    {
      var plan := rows[i].planType;
      if plan == Some("BASIC") { revenue := revenue + 29; }
      if plan == Some("PREMIUM") { revenue := revenue + 99; }
      if plan == Some("ENTERPRISE") { revenue := revenue + 299; }
      RevenueAdditive(rows[..i], [rows[i]]);
      assert rows[..i + 1] == rows[..i] + [rows[i]];
      i := i + 1;
    }
    assert rows[..i] == rows;
    RevenueByPlan(rows);
  }
}
