/** The chapter list page: a class → subject filter over the chapters
    table, sorted by chapter number, and a modal that creates a chapter
    under a class-subject. A list an effect fetches arrives as a parameter.

    As written, both subject selects read `id`, `name` and `code` from
    class-subject rows that have none of them, and the subject filter's
    listing calls `getChaptersBySubject`, which the academic service does
    not export. The `...AsWritten` members model that page. The others
    model it with class-subject options and a fetch of the class-subject's
    chapters, the page its handlers are written for. */
module ChapterList {
  import opened Wrappers
  import Sorting
  import opened AcademicListing

  /** A chapter as the table receives it; `chapterNumber` may be missing. */
  datatype ChapterRow = ChapterRow(id: Id, name: string, chapterNumber: Option<int>)

  /** `a.chapterNumber || 0`. */
  function NumberKey(c: ChapterRow): (k: int)
    ensures k == c.chapterNumber.GetOr(0)
  {
    c.chapterNumber.GetOr(0)
  }

  /** Both chapter fetches: the chapters in ascending chapter number. */
  function SortChapters(data: seq<ChapterRow>): (r: seq<ChapterRow>)
    ensures multiset(r) == multiset(data) && |r| == |data|
    ensures forall i, j :: 0 <= i < j < |r| ==> NumberKey(r[i]) <= NumberKey(r[j])
  {
    Sorting.SortBy(data, NumberKey)
  }

  /** Every number 1..|s| is the number of some chapter. */
  predicate Covers(s: seq<ChapterRow>) {
    forall k :: 1 <= k <= |s| ==> HasNumber(s, k)
  }

  predicate HasNumber(s: seq<ChapterRow>, k: int) {
    exists j :: 0 <= j < |s| && s[j].chapterNumber == Some(k)
  }

  /** Chapters numbered 1, 2, 3, … in any order come back in that order. */
  lemma {:induction false} NumberedChaptersInOrder(data: seq<ChapterRow>)
    requires forall i :: 0 <= i < |data| ==> data[i].chapterNumber.Some?
    requires Covers(data)
    ensures forall i :: 0 <= i < |data| ==> SortChapters(data)[i].chapterNumber == Some(i + 1)
  {
    var r := SortChapters(data);
    // Every number is one of 1..n, and all n of them occur, so they are distinct.
    forall i | 0 <= i < |r| ensures r[i].chapterNumber == Some(i + 1) {
      NumberAt(data, r, i);
    }
  }

  /** The i-th sorted chapter carries number i + 1. */
  lemma {:induction false} NumberAt(data: seq<ChapterRow>, r: seq<ChapterRow>, i: nat)
    requires forall i :: 0 <= i < |data| ==> data[i].chapterNumber.Some?
    requires Covers(data)
    requires r == SortChapters(data) && i < |r|
    ensures r[i].chapterNumber == Some(i + 1)
  {
    forall j | 0 <= j < |r| ensures r[j].chapterNumber.Some? {
      var t := SameElement(r, data, j);
    }
    assert Covers(r) by {
      forall k | 1 <= k <= |r| ensures HasNumber(r, k) {
        assert HasNumber(data, k);
        var t :| 0 <= t < |data| && data[t].chapterNumber == Some(k);
        var j := SameElement(data, r, t);
        assert r[j].chapterNumber == Some(k);
      }
    }
    CountBelow(r, i);
  }

  /** An element of one of two permutations sits somewhere in the other. */
  lemma SameElement(a: seq<ChapterRow>, b: seq<ChapterRow>, i: nat) returns (j: nat)
    requires multiset(a) == multiset(b) && i < |a|
    ensures j < |b| && b[j] == a[i]
  {
    assert a[i] in multiset(b);
    j :| 0 <= j < |b| && b[j] == a[i];
  }

  /** In a sorted list of numbered chapters where each of 1..n occurs,
      position i holds number i + 1. */
  lemma {:induction false} CountBelow(r: seq<ChapterRow>, i: nat)
    requires i < |r|
    requires forall j :: 0 <= j < |r| ==> r[j].chapterNumber.Some?
    requires forall a, b :: 0 <= a < b < |r| ==> NumberKey(r[a]) <= NumberKey(r[b])
    requires Covers(r)
    ensures r[i].chapterNumber == Some(i + 1)
  {
    var n := |r|;
    // Positions of numbers 1..n are distinct, and sortedness pins them down.
    var pos := PositionsOf(r, n);
    PositionsSorted(r, pos, n);
    assert pos[i] == i by {
      PositionsIdentity(pos, n);
    }
  }

  /** One position per number 1..n. */
  lemma PositionsOf(r: seq<ChapterRow>, n: nat) returns (pos: seq<nat>)
    requires n == |r|
    requires Covers(r)
    ensures |pos| == n
    ensures forall k :: 0 <= k < n ==> pos[k] < n && r[pos[k]].chapterNumber == Some(k + 1)
  {
    pos := [];
    while |pos| < n
      invariant |pos| <= n
      invariant forall k :: 0 <= k < |pos| ==> pos[k] < n && r[pos[k]].chapterNumber == Some(k + 1)
    {
      var k := |pos| + 1;
      assert HasNumber(r, k);
      var j :| 0 <= j < |r| && r[j].chapterNumber == Some(k);
      pos := pos + [j];
    }
  }

  /** The positions of larger numbers are larger. */
  lemma PositionsSorted(r: seq<ChapterRow>, pos: seq<nat>, n: nat)
    requires n == |r| && |pos| == n
    requires forall a, b :: 0 <= a < b < |r| ==> NumberKey(r[a]) <= NumberKey(r[b])
    requires forall k :: 0 <= k < n ==> pos[k] < n && r[pos[k]].chapterNumber == Some(k + 1)
    ensures forall a, b :: 0 <= a < b < n ==> pos[a] < pos[b]
  {
  }

  /** n strictly increasing positions below n are 0, 1, …, n - 1. */
  lemma {:induction false} PositionsIdentity(pos: seq<nat>, n: nat)
    requires |pos| == n
    requires forall k :: 0 <= k < n ==> pos[k] < n
    requires forall a, b :: 0 <= a < b < n ==> pos[a] < pos[b]
    ensures forall k :: 0 <= k < n ==> pos[k] == k
  {
    forall k | 0 <= k < n ensures pos[k] == k {
      AtLeastIndex(pos, n, k);
      AtMostIndex(pos, n, k);
    }
  }

  lemma {:induction false} AtLeastIndex(pos: seq<nat>, n: nat, k: nat)
    requires |pos| == n && k < n
    requires forall a, b :: 0 <= a < b < n ==> pos[a] < pos[b]
    ensures pos[k] >= k
  {
    if k > 0 {
      AtLeastIndex(pos, n, k - 1);
    }
  }

  lemma {:induction false} AtMostIndex(pos: seq<nat>, n: nat, k: nat)
    requires |pos| == n && k < n
    requires forall k :: 0 <= k < n ==> pos[k] < n
    requires forall a, b :: 0 <= a < b < n ==> pos[a] < pos[b]
    ensures pos[k] <= k
    decreases n - k
  {
    if k < n - 1 {
      AtMostIndex(pos, n, k + 1);
    }
  }

  /** The filter selections, the subject list the class fills, and the
      listing the table last asked for. */
  datatype Page = Page(cls: Id, subject: Id, subjects: seq<Id>, listing: Listing)

  /** An empty class has no subjects and no subject filter, and the table
      asks for the subject filter's listing. */
  predicate Consistent(p: Page) {
    (p.cls == "" ==> p.subjects == [] && p.subject == "") && p.listing == ListingFor(p.subject)
  }

  /** The page after the mount effects: nothing picked, every chapter listed. */
  const Initial: Page := Page("", "", [], All)

  /** The two filter effects, each run only when its selection changed from
      `prev`. */
  function Settle(prev: Page, p: Page, subjectsFetched: seq<Id>): (r: Page)
    ensures r.cls == p.cls
    ensures p.cls != prev.cls && p.cls == "" ==> r.subjects == [] && r.subject == ""
    ensures p.cls != prev.cls && p.cls != "" ==> r.subjects == subjectsFetched
    ensures p.subject != prev.subject ==> r.listing == ListingFor(p.subject)
  {
    var a := if p.cls == prev.cls then p
             else if p.cls != "" then p.(subjects := subjectsFetched)
             else p.(subjects := [], subject := "");
    if p.subject == prev.subject then a else a.(listing := ListingFor(p.subject))
  }

  /** The class filter: the subject filter cleared. */
  function ChangeClass(p: Page, v: Id, fetched: seq<Id>): (r: Page)
  {
    Settle(p, p.(cls := v, subject := ""), fetched)
  }

  /** The subject filter. */
  function ChangeSubject(p: Page, v: Id): (r: Page)
  {
    Settle(p, p.(subject := v), [])
  }

  /** Changing the class clears the subject filter and lists every chapter;
      an empty class empties the subject list. An empty subject filter lists
      every chapter, a picked one that subject's chapters. */
  lemma FiltersKeepConsistent(p: Page, v: Id, fetched: seq<Id>)
    requires Consistent(p)
    ensures var r := ChangeClass(p, v, fetched);
            && Consistent(r) && r.cls == v && r.subject == "" && r.listing == All
            && (v == "" ==> r.subjects == [])
    ensures p.cls != "" ==> Consistent(ChangeSubject(p, v))
    ensures ChangeSubject(p, v).listing == ListingFor(v)
  {
  }

  /** The modal's form; the chapter number is the text of its input. */
  datatype ChapterForm = ChapterForm(name: string, chapterNumber: string, classId: Id, subjectId: Id)

  const EmptyForm: ChapterForm := ChapterForm("", "", "", "")

  /** The modal's class select: the subject cleared; its effect loads the
      class's subjects into the list the filter shows. */
  function ModalClass(p: Page, f: ChapterForm, v: Id, fetched: seq<Id>): (r: (Page, ChapterForm))
    ensures r.1.classId == v && r.1.subjectId == "" && r.1.name == f.name && r.1.chapterNumber == f.chapterNumber
    ensures r.0.(subjects := p.subjects) == p
    ensures r.0.subjects == fetched <== v != f.classId && v != ""
  {
    (if v != f.classId && v != "" then p.(subjects := fetched) else p, f.(classId := v, subjectId := ""))
  }

  /** A create request: the class-subject and the chapter's name and number. */
  datatype CreateRequest = CreateRequest(subjectId: Id, name: string, chapterNumber: string)

  datatype SubmitOutcome = SubmitOutcome(form: ChapterForm, open: bool, request: Option<CreateRequest>, refresh: Option<Listing>)

  /** `handleSubmit`: the browser lets the form through only with every
      field filled; on success the modal closes, the form is reset and the
      table refreshes by the shared rule against the submitted subject. A
      failed create keeps the modal and the form. */
  function Submit(p: Page, f: ChapterForm, ok: bool): (r: SubmitOutcome)
    ensures r.request.Some? <==> f.name != "" && f.chapterNumber != "" && f.classId != "" && f.subjectId != ""
    ensures r.request.Some? ==> r.request.value == CreateRequest(f.subjectId, f.name, f.chapterNumber)
    ensures r.request.Some? && ok ==> r.form == EmptyForm && !r.open
                                      && r.refresh == RefreshAfterCreate(p.subject, f.subjectId)
    ensures !(r.request.Some? && ok) ==> r.form == f && r.open && r.refresh.None?
  {
    if f.name == "" || f.chapterNumber == "" || f.classId == "" || f.subjectId == "" then SubmitOutcome(f, true, None, None)
    else
      var q := CreateRequest(f.subjectId, f.name, f.chapterNumber);
      if !ok then SubmitOutcome(f, true, Some(q), None)
      else SubmitOutcome(EmptyForm, false, Some(q), RefreshAfterCreate(p.subject, f.subjectId))
  }

  /** A created chapter refreshes the table exactly when it belongs to the
      listing shown. */
  lemma CreateRefreshesIffVisible(p: Page, f: ChapterForm)
    requires Consistent(p) && Submit(p, f, true).request.Some?
    ensures var r := Submit(p, f, true);
            (r.refresh.Some? <==> Visible(p.listing, f.subjectId)) && (r.refresh.Some? ==> r.refresh.value == p.listing)
  {
    RefreshIffVisible(p.subject, f.subjectId);
  }

  /** `handleDelete`: nothing unless confirmed; a successful delete
      re-fetches the listing of the subject filter. */
  function Delete(p: Page, id: Id, confirmed: bool, ok: bool): (r: (Option<Id>, Option<Listing>))
    ensures r.0.Some? <==> confirmed
    ensures r.0.Some? ==> r.0.value == id
    ensures r.1.Some? <==> confirmed && ok
    ensures r.1.Some? ==> r.1.value == ListingFor(p.subject)
  {
    if !confirmed then (None, None) else if !ok then (Some(id), None) else (Some(id), Some(ListingFor(p.subject)))
  }

  // ---- the page as written ----------------------------------------------

  /** The filter effects as written: a chosen subject's listing is fetched
      with the missing `getChaptersBySubject`, which throws inside the
      `try`, so the table keeps the listing it had; clearing the subject
      still lists every chapter. */
  function SettleAsWritten(prev: Page, p: Page, subjectsFetched: seq<Id>): (r: Page)
    ensures r.cls == p.cls && r.subject == (if p.cls != prev.cls && p.cls == "" then "" else p.subject)
    ensures p.cls != prev.cls && p.cls != "" ==> r.subjects == subjectsFetched
    ensures p.subject != prev.subject && p.subject == "" ==> r.listing == All
    ensures p.subject != "" ==> r.listing == p.listing
  {
    var r := Settle(prev, p, subjectsFetched);
    if p.subject != prev.subject && p.subject != "" then r.(listing := p.listing) else r
  }

  /** The subject filter as written. */
  function ChangeSubjectAsWritten(p: Page, v: Id): (r: Page)
    ensures r.subject == v && r.cls == p.cls && r.subjects == p.subjects
    ensures v != "" ==> r.listing == p.listing
  {
    SettleAsWritten(p, p.(subject := v), [])
  }

  /** As written the subject filter never narrows the table: every subject
      option is "()", and choosing one leaves the listing as it was, so a
      table showing every chapter keeps showing every chapter while the
      filter names a subject. */
  lemma AsWrittenFilterNeverNarrows(p: Page, rows: seq<ClassSubjectRow>, i: nat)
    requires Consistent(p) && p.subject == "" && i < |rows|
    requires p.subjects == SubjectOptionsAsWritten(rows, NameCodeLabel)
    ensures var r := ChangeSubjectAsWritten(p, p.subjects[i]);
            r.subject == NameCodeLabel && r.listing == All && !Consistent(r)
  {
  }

  /** With class-subject options, choosing a subject in the filter lists
      that class-subject's chapters. */
  lemma FilterNarrowsToClassSubject(p: Page, rows: seq<ClassSubjectRow>, i: nat)
    requires Consistent(p) && p.cls != "" && i < |rows| && rows[i].classSubjectId != ""
    requires p.subjects == SubjectOptions(rows)
    ensures var r := ChangeSubject(p, p.subjects[i]);
            Consistent(r) && r.listing == Under(rows[i].classSubjectId)
  {
    FiltersKeepConsistent(p, p.subjects[i], []);
  }

  /** As written the modal never creates a chapter: its subject options are
      all "", so the required subject select stays empty and the browser
      keeps the form from submitting. */
  lemma AsWrittenModalNeverCreates(p: Page, f: ChapterForm, rows: seq<ClassSubjectRow>, i: nat, ok: bool)
    requires i < |rows|
    ensures Submit(p, f.(subjectId := SubjectOptionsAsWritten(rows, NameLabel)[i]), ok).request.None?
  {
  }

  /** With class-subject ids as its options, a filled modal sends the
      create under the class-subject picked. */
  lemma ModalCreatesUnderClassSubject(p: Page, f: ChapterForm, rows: seq<ClassSubjectRow>, i: nat, ok: bool)
    requires i < |rows|
    requires f.name != "" && f.chapterNumber != "" && f.classId != "" && rows[i].classSubjectId != ""
    ensures Submit(p, f.(subjectId := SubjectOptions(rows)[i]), ok).request
            == Some(CreateRequest(rows[i].classSubjectId, f.name, f.chapterNumber))
  {
  }
}
