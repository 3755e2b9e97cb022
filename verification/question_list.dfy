/** The question bank list page: the status filter the route selects, the
    rows shown under it, and the local removal after a delete. */
module QuestionList {
  import opened Text
  import opened Wrappers

  /** A fetched question: its id and the JSON name of its status. */
  datatype QuestionRow = QuestionRow(id: string, status: string)

  datatype StatusFilter = All | Only(status: string)

  /** The filter for a route path; the first matching segment wins. */
  function FilterForPath(path: string): (f: StatusFilter)
    ensures Contains(path, "/approved") ==> f == Only("APPROVED")
    ensures !Contains(path, "/approved") && Contains(path, "/pending") ==> f == Only("PENDING")
    ensures !Contains(path, "/approved") && !Contains(path, "/pending") && Contains(path, "/rejected") ==> f == Only("REJECTED")
    ensures f == All <==> !Contains(path, "/approved") && !Contains(path, "/pending") && !Contains(path, "/rejected")
  {
    if Contains(path, "/approved") then Only("APPROVED")
    else if Contains(path, "/pending") then Only("PENDING")
    else if Contains(path, "/rejected") then Only("REJECTED")
    else All
  }

  /** The rows with a given status, in fetched order. */
  function WithStatus(rows: seq<QuestionRow>, status: string): (r: seq<QuestionRow>)
    ensures |r| <= |rows|
    ensures forall q :: q in r <==> q in rows && q.status == status
  {
    if |rows| == 0 then []
    else (if rows[0].status == status then [rows[0]] else []) + WithStatus(rows[1..], status)
  }

  /** `getFilteredQuestions`. */
  function Filtered(rows: seq<QuestionRow>, filter: StatusFilter): (r: seq<QuestionRow>)
    ensures filter == All ==> r == rows
    ensures filter.Only? ==> forall q :: q in r <==> q in rows && q.status == filter.status
  {
    match filter
    case All => rows
    case Only(s) => WithStatus(rows, s)
  }

  /** Filtering keeps fetched order: it distributes over concatenation. */
  lemma {:induction false} WithStatusDistributes(a: seq<QuestionRow>, b: seq<QuestionRow>, status: string)
    ensures WithStatus(a + b, status) == WithStatus(a, status) + WithStatus(b, status)
  {
    if |a| == 0 {
      assert a + b == b;
    } else {
      assert (a + b)[1..] == a[1..] + b;
      WithStatusDistributes(a[1..], b, status);
    }
  }

  /** A row with a matching status survives filtering; any other is dropped. */
  lemma WithStatusSingle(q: QuestionRow, status: string)
    ensures WithStatus([q], status) == if q.status == status then [q] else []
  {
    assert [q][1..] == [];
  }

  /** The local list after deleting `id`: every row with that id is gone. */
  function RemoveId(rows: seq<QuestionRow>, id: string): (r: seq<QuestionRow>)
    ensures |r| <= |rows|
    ensures forall q :: q in r <==> q in rows && q.id != id
  {
    if |rows| == 0 then []
    else (if rows[0].id != id then [rows[0]] else []) + RemoveId(rows[1..], id)
  }

  /** Deleting and filtering commute: the shown list is the same either way. */
  lemma {:induction false} RemoveCommutesWithFilter(rows: seq<QuestionRow>, id: string, status: string)
    ensures WithStatus(RemoveId(rows, id), status) == RemoveId(WithStatus(rows, status), id)
  {
    if |rows| > 0 {
      RemoveCommutesWithFilter(rows[1..], id, status);
      var head := if rows[0].id != id then [rows[0]] else [];
      WithStatusDistributes(head, RemoveId(rows[1..], id), status);
      var kept := if rows[0].status == status then [rows[0]] else [];
      assert RemoveId(kept + WithStatus(rows[1..], status), id)
             == RemoveId(kept, id) + RemoveId(WithStatus(rows[1..], status), id) by {
        RemoveDistributes(kept, WithStatus(rows[1..], status), id);
      }
      if rows[0].id != id { WithStatusSingle(rows[0], status); }
      if rows[0].status == status { assert [rows[0]][1..] == []; }
    }
  }

  lemma {:induction false} RemoveDistributes(a: seq<QuestionRow>, b: seq<QuestionRow>, id: string)
    ensures RemoveId(a + b, id) == RemoveId(a, id) + RemoveId(b, id)
  {
    if |a| == 0 {
      assert a + b == b;
    } else {
      assert (a + b)[1..] == a[1..] + b;
      RemoveDistributes(a[1..], b, id);
    }
  }

  /** `handleDelete`: nothing unless confirmed; the delete call is made, and
      only when it succeeds does the row leave the local list. Returns the
      list and the id the call was made for. */
  function HandleDelete(rows: seq<QuestionRow>, id: string, confirmed: bool, ok: bool)
    : (r: (seq<QuestionRow>, Option<string>))
    ensures r.1.Some? <==> confirmed
    ensures r.1.Some? ==> r.1.value == id
    ensures confirmed && ok ==> forall q :: q in r.0 <==> q in rows && q.id != id
    ensures !(confirmed && ok) ==> r.0 == rows
  {
    if !confirmed then (rows, None)
    else if !ok then (rows, Some(id))
    else (RemoveId(rows, id), Some(id))
  }
}
