/** What the chapter and topic list pages share: the class dropdown sorted
    by display order, and the rule that decides which listing the table
    shows and whether a create refreshes it. */
module AcademicListing {
  import opened Wrappers
  import Sorting

  type Id = string

  /** A class as the dropdown receives it; `order` may be missing. */
  datatype ClassRow = ClassRow(id: Id, name: string, order: Option<int>)

  /** `a.order || 0`. */
  function OrderKey(c: ClassRow): (k: int)
    ensures c.order.None? ==> k == 0
    ensures c.order.Some? ==> k == c.order.value
  {
    c.order.GetOr(0)
  }

  /** `fetchClasses`: the classes in ascending display order. */
  function SortClasses(data: seq<ClassRow>): (r: seq<ClassRow>)
    ensures multiset(r) == multiset(data) && |r| == |data|
    ensures forall i, j :: 0 <= i < j < |r| ==> OrderKey(r[i]) <= OrderKey(r[j])
  {
    Sorting.SortBy(data, OrderKey)
  }

  /** A class without an order is placed as if its order were 0: after every
      negative order and before every positive one. */
  lemma MissingOrderSortsAsZero(data: seq<ClassRow>, i: nat)
    requires i < |data| && data[i].order.None?
    ensures var r := SortClasses(data);
            exists k :: 0 <= k < |r| && r[k] == data[i]
              && (forall j :: 0 <= j < k ==> OrderKey(r[j]) <= 0)
              && (forall j :: k < j < |r| ==> OrderKey(r[j]) >= 0)
  {
    var r := SortClasses(data);
    assert data[i] in multiset(data);
    assert data[i] in multiset(r);
    var k :| 0 <= k < |r| && r[k] == data[i];
    assert OrderKey(r[k]) == 0;
  }

  /** A class-subject as the academic service returns it: the fields of
      `ClassSubjectDTO`, which has no `id`, `name` or `code`. */
  datatype ClassSubjectRow = ClassSubjectRow(classSubjectId: Id, subjectId: Id, subjectName: string, subjectCode: string)

  /** The values of the options written `value={sub.classSubjectId}`: one
      per row, its class-subject id. */
  function SubjectOptions(rows: seq<ClassSubjectRow>): (vs: seq<Id>)
    ensures |vs| == |rows|
    ensures forall i :: 0 <= i < |rows| ==> vs[i] == rows[i].classSubjectId
  {
    seq(|rows|, i requires 0 <= i < |rows| => rows[i].classSubjectId)
  }

  /** The values of the options written `value={sub.id}`. The rows have no
      `id`, so React leaves the `value` attribute off, and such an option
      takes its trimmed text instead. The text reads the equally missing
      `name` (and `code`), so every option carries the same text, `shown`. */
  function SubjectOptionsAsWritten(rows: seq<ClassSubjectRow>, shown: string): (vs: seq<Id>)
    ensures |vs| == |rows|
    ensures forall i :: 0 <= i < |rows| ==> vs[i] == shown
  {
    seq(|rows|, i requires 0 <= i < |rows| => shown)
  }

  /** The text of `{sub.name}` with `name` missing. */
  const NameLabel: string := ""

  /** The trimmed text of `{sub.name} ({sub.code})` with both missing. */
  const NameCodeLabel: string := "()"

  /** The two spellings differ exactly in what a choice tells apart: the
      class-subject options name the chosen row, the options as written
      are all the same label. */
  lemma OptionsIdentifyRows(rows: seq<ClassSubjectRow>, shown: string, i: nat, j: nat)
    requires i < |rows| && j < |rows|
    ensures SubjectOptionsAsWritten(rows, shown)[i] == SubjectOptionsAsWritten(rows, shown)[j]
    ensures SubjectOptions(rows)[i] == SubjectOptions(rows)[j] <==> rows[i].classSubjectId == rows[j].classSubjectId
  {
  }

  /** The listing a table shows: everything, or what lies under one parent. */
  datatype Listing = All | Under(parent: Id)

  /** An empty filter lists everything; otherwise the filter's children. */
  function ListingFor(filter: Id): (l: Listing)
    ensures l.All? <==> filter == ""
    ensures l.Under? ==> l.parent == filter
  {
    if filter == "" then All else Under(filter)
  }

  /** Whether an item created under `parent` belongs in the listing. */
  predicate Visible(l: Listing, parent: Id) {
    l.All? || l.parent == parent
  }

  /** The refresh after a create under `target`: only when the filter is
      empty or equals the target, and then the filter's own listing. */
  function RefreshAfterCreate(filter: Id, target: Id): (r: Option<Listing>)
    ensures r.Some? <==> filter == "" || filter == target
    ensures r.Some? ==> r.value == ListingFor(filter)
  {
    if filter == target || filter == "" then Some(ListingFor(filter)) else None
  }

  /** A create refreshes the table exactly when the new item belongs to the
      listing the table shows. */
  lemma RefreshIffVisible(filter: Id, target: Id)
    ensures RefreshAfterCreate(filter, target).Some? <==> Visible(ListingFor(filter), target)
  {
  }
}
