/**
 * The skill-categorization review queue: the domains preselected for an
 * assessment, the gate on the categorize submission, and how the queue moves
 * on after an assessment is processed (next item, or a refetch of a page).
 */
module ReviewQueue {
  import opened Wrappers
  import opened Seqs

  /** One entry of the domain option list: the stored value and its display title. */
  datatype DomainOption = DomainOption(value: string, title: string)

  /**
   * A pending skill assessment. A missing domain list is the empty list and a
   * missing or empty automatic domain is the empty string (both are falsy).
   */
  datatype Assessment = Assessment(id: string, domains: seq<string>, autoCategorizedDomain: string, additionalNotes: string)

  /** One page of the pending queue as returned by the server. */
  datatype PageData = PageData(assessments: seq<Assessment>, page: int, totalPages: int)

  const NoDomainMessage: string := "Please select at least one domain."

  // ----------------------------------------------------------- the action form

  /** The reviewer's domains if any, else the automatic domain if set, else none. */
  function InitialDomains(a: Assessment): (r: seq<string>)
    ensures a.domains != [] ==> r == a.domains
    ensures a.domains == [] && a.autoCategorizedDomain != [] ==> r == [a.autoCategorizedDomain]
    ensures r == [] <==> a.domains == [] && a.autoCategorizedDomain == []
  {
    if a.domains != [] then a.domains
    else if a.autoCategorizedDomain != [] then [a.autoCategorizedDomain]
    else []
  }

  /** The options whose value is among the initial domains, in the option list's order. */
  function SelectedDomains(options: seq<DomainOption>, a: Assessment): (r: seq<DomainOption>)
  {
    var initial := InitialDomains(a);
    Filter(options, (d: DomainOption) => d.value in initial)
  }

  /** The notes field starts from the assessment's notes, or empty. */
  function InitialNotes(a: Assessment): string
  {
    a.additionalNotes
  }

  /** The categorize request body: the selected values, in order. */
  datatype Categorization = Categorization(domains: seq<string>, notes: string)

  /** handleSubmit: refused with a message when nothing is selected, else the values of the selection. */
  function CategorizeRequest(selected: seq<DomainOption>, notes: string): (r: Result<Categorization>)
    ensures r.Err? <==> selected == []
    ensures r.Err? ==> r.message == NoDomainMessage
    ensures r.Ok? ==> |r.value.domains| == |selected| && r.value.notes == notes
    ensures r.Ok? ==> forall i :: 0 <= i < |selected| ==> r.value.domains[i] == selected[i].value
  {
    if selected == [] then Err(NoDomainMessage)
    else Ok(Categorization(seq(|selected|, i requires 0 <= i < |selected| => selected[i].value), notes))
  }

  /** The preselection keeps the option order and picks exactly the options named by the assessment. */
  lemma PreselectionIsSubsequence(options: seq<DomainOption>, a: Assessment)
    ensures IsSubsequence(SelectedDomains(options, a), options)
    ensures forall d :: d in SelectedDomains(options, a) <==> d in options && d.value in InitialDomains(a)
  {
    FilterIsSubsequence(options, (d: DomainOption) => d.value in InitialDomains(a));
  }

  /**
   * The form as it opens is accepted exactly when some option is named by the
   * assessment, and then it sends the assessment's own notes.
   */
  lemma OpenedFormRequest(options: seq<DomainOption>, a: Assessment)
    ensures CategorizeRequest(SelectedDomains(options, a), InitialNotes(a)).Ok? <==>
      exists d :: d in options && d.value in InitialDomains(a)
    ensures CategorizeRequest(SelectedDomains(options, a), InitialNotes(a)).Ok? ==>
      CategorizeRequest(SelectedDomains(options, a), InitialNotes(a)).value.notes == a.additionalNotes
  {
    var s := SelectedDomains(options, a);
    PreselectionIsSubsequence(options, a);
    if s != [] {
      assert s[0] in s;
    }
  }

  /** An assessment naming no domain, or only domains missing from the options, cannot be submitted as it opens. */
  lemma UnknownDomainsBlockSubmit(options: seq<DomainOption>, a: Assessment, notes: string)
    requires forall d :: d in options ==> d.value !in InitialDomains(a)
    ensures CategorizeRequest(SelectedDomains(options, a), notes).Err?
  {
    var s := SelectedDomains(options, a);
    if s != [] {
      assert s[0] in s;
    }
  }

  // ------------------------------------------------------------ the queue

  /** The entries whose id differs from the given one, in order. */
  function Without(items: seq<Assessment>, id: string): (r: seq<Assessment>)
  {
    Filter(items, (a: Assessment) => a.id != id)
  }

  /** findIndex: the first position holding the id, or -1. */
  function FindIndex(items: seq<Assessment>, id: string): (r: int)
    ensures -1 <= r < |items|
    ensures r == -1 <==> forall k :: 0 <= k < |items| ==> items[k].id != id
    ensures r >= 0 ==> items[r].id == id && forall k :: 0 <= k < r ==> items[k].id != id
    decreases |items|
  {
    if items == [] then -1
    else if items[0].id == id then 0
    else
      var t := FindIndex(items[1..], id);
      if t == -1 then -1 else t + 1
  }

  /**
   * remaining[Math.min(currentIndex, remaining.length - 1)]: the entry that
   * moved into the processed one's place, or the last one; an index of -1
   * reads past the start and yields no entry.
   */
  function NextSelection(remaining: seq<Assessment>, index: int): (r: Option<Assessment>)
    requires remaining != []
    ensures index < 0 ==> r.None?
    ensures 0 <= index < |remaining| ==> r == Some(remaining[index])
    ensures index >= |remaining| ==> r == Some(remaining[|remaining| - 1])
  {
    var k := if index < |remaining| - 1 then index else |remaining| - 1;
    if k < 0 then None else Some(remaining[k])
  }

  /** Where a queue that ran empty goes: the same page, the previous one, or nowhere. */
  function RefetchPage(currentPage: int, totalPages: int): (r: Option<int>)
    ensures currentPage < totalPages ==> r == Some(currentPage)
    ensures totalPages <= currentPage && 1 < currentPage ==> r == Some(currentPage - 1)
    ensures r.None? <==> totalPages <= currentPage <= 1
  {
    if currentPage < totalPages then Some(currentPage)
    else if currentPage > 1 then Some(currentPage - 1)
    else None
  }

  /** From a page within 1..totalPages the page requested again also lies within 1..totalPages. */
  lemma RefetchStaysInRange(currentPage: int, totalPages: int)
    requires 1 <= currentPage <= totalPages
    ensures var r := RefetchPage(currentPage, totalPages);
      r.Some? ==> 1 <= r.value <= totalPages
    ensures RefetchPage(currentPage, totalPages).None? <==> totalPages == 1
  {
  }

  /** The page's queue state: the listed assessments, the selection and the pagination. */
  class Queue {
    var assessments: seq<Assessment>
    var selected: Option<Assessment>
    var currentPage: int
    var totalPages: int

    /** The page before the first fetch: empty, nothing selected, page 1 of 1. */
    constructor()
      ensures assessments == [] && selected.None? && currentPage == 1 && totalPages == 1
    {
      assessments := [];
      selected := None;
      currentPage := 1;
      totalPages := 1;
    }

    /**
     * fetchAssessments(page) without preserving the selection: the selection is
     * cleared before the request; a response replaces the list and pagination
     * and selects its first entry; a failed request leaves the rest as it was.
     */
    method Fetch(response: Option<PageData>)
      modifies this
      ensures response.None? ==> selected.None? && assessments == old(assessments)
      ensures response.None? ==> currentPage == old(currentPage) && totalPages == old(totalPages)
      ensures response.Some? ==> assessments == response.value.assessments
      ensures response.Some? ==> currentPage == response.value.page && totalPages == response.value.totalPages
      ensures response.Some? ==>
        selected == (if response.value.assessments == [] then None else Some(response.value.assessments[0]))
    {
      selected := None;
      if response.Some? {
        assessments := response.value.assessments;
        currentPage := response.value.page;
        totalPages := response.value.totalPages;
        if response.value.assessments != [] {
          selected := Some(response.value.assessments[0]);
        }
      }
    }

    /** handlePageChange: a page outside 1..totalPages is ignored; otherwise that page is requested. */
    method PageChange(newPage: int) returns (request: Option<int>)
      modifies this
      ensures request.Some? <==> 1 <= newPage <= old(totalPages)
      ensures request.Some? ==> request.value == newPage && selected.None?
      ensures request.None? ==> selected == old(selected)
      ensures assessments == old(assessments) && currentPage == old(currentPage) && totalPages == old(totalPages)
    {
      if 1 <= newPage <= totalPages {
        selected := None;
        request := Some(newPage);
      } else {
        request := None;
      }
    }

    /**
     * handleCategorizeComplete: the processed assessment leaves the list; the
     * selection moves to the entry now in its place (or the last); an emptied
     * list requests a page again (see RefetchPage) and clears the selection.
     */
    method CategorizeComplete() returns (request: Option<int>)
      requires selected.Some?
      modifies this
      ensures assessments == Without(old(assessments), old(selected).value.id)
      ensures currentPage == old(currentPage) && totalPages == old(totalPages)
      ensures assessments != [] ==> request.None?
      ensures assessments != [] ==>
        selected == NextSelection(assessments, FindIndex(old(assessments), old(selected).value.id))
      ensures assessments == [] ==> request == RefetchPage(currentPage, totalPages) && selected.None?
    {
      var id := selected.value.id;
      var currentIndex := FindIndex(assessments, id);
      var remaining := Without(assessments, id);
      assessments := remaining;
      if remaining != [] {
        selected := NextSelection(remaining, currentIndex);
        request := None;
      } else {
        request := RefetchPage(currentPage, totalPages);
        selected := None;
      }
    }
  }

  /** Every entry other than the processed one stays, in order, and the processed one is gone. */
  lemma CategorizeKeepsOthers(items: seq<Assessment>, id: string)
    ensures IsSubsequence(Without(items, id), items)
    ensures forall a :: a in Without(items, id) <==> a in items && a.id != id
  {
    FilterIsSubsequence(items, (a: Assessment) => a.id != id);
  }

  /** Entries before the processed one keep their place, so the one after it moves into its index. */
  lemma WithoutPrefix(items: seq<Assessment>, id: string, index: nat)
    requires index < |items| && index == FindIndex(items, id)
    requires forall k :: index < k < |items| ==> items[k].id != id
    ensures Without(items, id) == items[..index] + items[index + 1..]
  {
    var p := (a: Assessment) => a.id != id;
    var before, at, after := items[..index], [items[index]], items[index + 1..];
    assert items == before + (at + after);
    FilterAppend(before, at + after, p);
    FilterAppend(at, after, p);
    assert forall a :: a in before ==> p(a);
    assert forall a :: a in after ==> p(a);
    FilterKeepsAll(before, p);
    FilterKeepsAll(after, p);
    assert Filter(at, p) == [];
  }

  /** With unique ids, processing an entry that has a successor selects that successor. */
  lemma SelectsSuccessor(items: seq<Assessment>, index: nat)
    requires index + 1 < |items|
    requires forall i, j :: 0 <= i < j < |items| ==> items[i].id != items[j].id
    ensures var remaining := Without(items, items[index].id);
      remaining != [] && NextSelection(remaining, FindIndex(items, items[index].id)) == Some(items[index + 1])
  {
    var id := items[index].id;
    assert FindIndex(items, id) == index;
    WithoutPrefix(items, id, index);
    var remaining := Without(items, id);
    assert remaining[index] == items[index + 1];
  }

  /** With unique ids, processing the last of several entries selects the new last one. */
  lemma SelectsNewLast(items: seq<Assessment>)
    requires 2 <= |items|
    requires forall i, j :: 0 <= i < j < |items| ==> items[i].id != items[j].id
    ensures var id := items[|items| - 1].id;
      var remaining := Without(items, id);
      remaining == items[..|items| - 1] && NextSelection(remaining, FindIndex(items, id)) == Some(items[|items| - 2])
  {
    var n := |items| - 1;
    var id := items[n].id;
    assert FindIndex(items, id) == n;
    WithoutPrefix(items, id, n);
    assert items[n + 1..] == [];
    assert items[..n] + items[n + 1..] == items[..n];
  }
}
