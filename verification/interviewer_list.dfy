/**
 * The interviewer list's controls: the sort toggle, filter changes that send
 * the list back to page 1, the editable payment amounts (built from a fetched
 * page, edited per row, saved on blur and reverted when the save fails) and
 * the status change.
 */
module InterviewerList {
  import opened Wrappers

  datatype Direction = Asc | Desc

  datatype SortConfig = SortConfig(key: string, direction: Direction)

  /** The sort the list opens with: newest onboarding first. */
  const InitialSort: SortConfig := SortConfig("onboardingDate", Desc)

  /** An interviewer row: its id, its payment amount (missing or text) and its status. */
  datatype Interviewer = Interviewer(id: string, paymentAmount: Option<string>, status: string)

  /** One page of interviewers as returned by the server. */
  datatype PageData = PageData(interviewers: seq<Interviewer>, page: int, totalPages: int, totalItems: int)

  /** paymentAmount || '': the stored amount, empty when missing. */
  function StoredAmount(i: Interviewer): (r: string)
    ensures i.paymentAmount.None? ==> r == []
    ensures i.paymentAmount.Some? ==> r == i.paymentAmount.value
  {
    if i.paymentAmount.Some? then i.paymentAmount.value else []
  }

  // ---------------------------------------------------------------- sorting

  /** handleSort: the clicked key; descending only when the same key was ascending. */
  function ToggleSort(prev: SortConfig, key: string): (r: SortConfig)
    ensures r.key == key
    ensures r.direction == Desc <==> prev.key == key && prev.direction == Asc
  {
    SortConfig(key, if prev.key == key && prev.direction == Asc then Desc else Asc)
  }

  /** Clicking the same column twice from ascending comes back to ascending; a new column starts ascending. */
  lemma ToggleSortCycle(prev: SortConfig, key: string)
    ensures prev.key != key ==> ToggleSort(prev, key).direction == Asc
    ensures ToggleSort(ToggleSort(prev, key), key).direction == (if ToggleSort(prev, key).direction == Asc then Desc else Asc)
    ensures var once := ToggleSort(SortConfig(key, Asc), key); once.direction == Desc && ToggleSort(once, key).direction == Asc
  {
  }

  // ------------------------------------------------------------ amount map

  /**
   * The amount map the reduce builds: each interviewer's id sends to its
   * stored amount, a later row overwriting an earlier one with the same id.
   */
  function AmountMap(list: seq<Interviewer>): (r: map<string, string>)
    ensures forall id :: id in r <==> exists i :: 0 <= i < |list| && list[i].id == id
    decreases |list|
  {
    if list == [] then map[]
    else
      var init := list[..|list| - 1];
      var last := list[|list| - 1];
      var m := AmountMap(init);
      assert forall i :: 0 <= i < |init| ==> init[i] == list[i];
      m[last.id := StoredAmount(last)]
  }

  /** With distinct ids every row's id reads its own stored amount. */
  lemma {:induction false} AmountMapReadsRow(list: seq<Interviewer>, k: nat)
    requires k < |list|
    requires forall i, j :: 0 <= i < j < |list| ==> list[i].id != list[j].id
    ensures list[k].id in AmountMap(list) && AmountMap(list)[list[k].id] == StoredAmount(list[k])
    decreases |list|
  {
    if k < |list| - 1 {
      var init := list[..|list| - 1];
      assert init[k] == list[k];
      AmountMapReadsRow(init, k);
    }
  }

  /** When ids repeat, the last row with an id decides its amount. */
  lemma {:induction false} AmountMapLastWins(list: seq<Interviewer>, k: nat)
    requires k < |list|
    requires forall j :: k < j < |list| ==> list[j].id != list[k].id
    ensures list[k].id in AmountMap(list) && AmountMap(list)[list[k].id] == StoredAmount(list[k])
    decreases |list|
  {
    if k < |list| - 1 {
      var init := list[..|list| - 1];
      assert init[k] == list[k];
      assert forall j :: k < j < |init| ==> init[j] == list[j];
      AmountMapLastWins(init, k);
    }
  }

  /** The reduce over the fetched rows, one row at a time. */
  method BuildAmounts(list: seq<Interviewer>) returns (acc: map<string, string>)
    ensures acc == AmountMap(list)
  {
    acc := map[];
    var i := 0;
    while i < |list|
      invariant 0 <= i <= |list|
      invariant acc == AmountMap(list[..i])
    {
      assert list[..i + 1][..i] == list[..i];
      acc := acc[list[i].id := StoredAmount(list[i])];
      i := i + 1;
    }
    assert list[..|list|] == list;
  }

  /** i._id === id ? { ...i, paymentAmount: amount } : i, over the list. */
  function SetAmount(list: seq<Interviewer>, id: string, amount: Option<string>): (r: seq<Interviewer>)
    ensures |r| == |list|
    ensures forall i :: 0 <= i < |list| ==>
      r[i] == if list[i].id == id then list[i].(paymentAmount := amount) else list[i]
  {
    seq(|list|, i requires 0 <= i < |list| =>
      if list[i].id == id then list[i].(paymentAmount := amount) else list[i])
  }

  /** i._id === id ? { ...i, status: status } : i, over the list. */
  function SetStatus(list: seq<Interviewer>, id: string, status: string): (r: seq<Interviewer>)
    ensures |r| == |list|
    ensures forall i :: 0 <= i < |list| ==>
      r[i] == if list[i].id == id then list[i].(status := status) else list[i]
  {
    seq(|list|, i requires 0 <= i < |list| =>
      if list[i].id == id then list[i].(status := status) else list[i])
  }

  /** interviewers.find(i => i._id === id) */
  function Find(list: seq<Interviewer>, id: string): (r: Option<Interviewer>)
    ensures r.None? <==> forall i :: 0 <= i < |list| ==> list[i].id != id
    ensures r.Some? ==> r.value in list && r.value.id == id
    ensures r.Some? ==> exists k :: 0 <= k < |list| && list[k] == r.value && forall j :: 0 <= j < k ==> list[j].id != id
    decreases |list|
  {
    if list == [] then None
    else if list[0].id == id then Some(list[0])
    else Find(list[1..], id)
  }

  /**
   * Whether a blur saves: the row exists and the edited value (missing when
   * the map has no entry for the row) differs from the stored amount.
   */
  predicate SaveNeeded(list: seq<Interviewer>, amounts: map<string, string>, id: string)
  {
    var original := Find(list, id);
    original.Some? && (id !in amounts || amounts[id] != StoredAmount(original.value))
  }

  /** The list's state: the page of interviewers, the edited amounts, the paging, the sort and the filters. */
  class Roster {
    var interviewers: seq<Interviewer>
    var amounts: map<string, string>
    var currentPage: int
    var totalPages: int
    var totalItems: int
    var sort: SortConfig
    var filters: map<string, string>

    /** The list as it opens: no rows, page 1 of 1, the initial sort and every filter empty. */
    constructor()
      ensures interviewers == [] && amounts == map[] && currentPage == 1 && totalPages == 1 && totalItems == 0
      ensures sort == InitialSort
      ensures filters == map["search" := "", "status" := "", "domain" := "", "paymentTier" := ""]
    {
      interviewers := [];
      amounts := map[];
      currentPage := 1;
      totalPages := 1;
      totalItems := 0;
      sort := InitialSort;
      filters := map["search" := "", "status" := "", "domain" := "", "paymentTier" := ""];
    }

    /** handleSort: back to page 1 with the toggled sort. */
    method Sort(key: string)
      modifies this
      ensures currentPage == 1 && sort == ToggleSort(old(sort), key)
      ensures filters == old(filters) && interviewers == old(interviewers) && amounts == old(amounts)
      ensures totalPages == old(totalPages) && totalItems == old(totalItems)
    {
      currentPage := 1;
      sort := ToggleSort(sort, key);
    }

    /** handleFilterChange: back to page 1 with one filter replaced. */
    method FilterChange(key: string, value: string)
      modifies this
      ensures currentPage == 1 && filters == old(filters)[key := value]
      ensures sort == old(sort) && interviewers == old(interviewers) && amounts == old(amounts)
      ensures totalPages == old(totalPages) && totalItems == old(totalItems)
    {
      currentPage := 1;
      filters := filters[key := value];
    }

    /**
     * fetchInterviewers: a response replaces the rows and the paging, and the
     * amount map is rebuilt from the rows unless amounts are preserved; a
     * failed request changes nothing.
     */
    method Fetch(response: Option<PageData>, preserveAmounts: bool)
      modifies this
      ensures response.Some? ==> interviewers == response.value.interviewers && currentPage == response.value.page
      ensures response.Some? ==> totalPages == response.value.totalPages && totalItems == response.value.totalItems
      ensures response.Some? && !preserveAmounts ==> amounts == AmountMap(response.value.interviewers)
      ensures response.None? || preserveAmounts ==> amounts == old(amounts)
      ensures response.None? ==> interviewers == old(interviewers) && currentPage == old(currentPage)
      ensures response.None? ==> totalPages == old(totalPages) && totalItems == old(totalItems)
      ensures sort == old(sort) && filters == old(filters)
    {
      if response.Some? {
        interviewers := response.value.interviewers;
        currentPage := response.value.page;
        totalPages := response.value.totalPages;
        totalItems := response.value.totalItems;
        if !preserveAmounts {
          amounts := BuildAmounts(response.value.interviewers);
        }
      }
    }

    /** handlePageChange: the page is shown as current and requested, keeping the edited amounts. */
    method PageChange(page: int) returns (request: int)
      modifies this
      ensures currentPage == page && request == page
      ensures interviewers == old(interviewers) && amounts == old(amounts) && sort == old(sort) && filters == old(filters)
      ensures totalPages == old(totalPages) && totalItems == old(totalItems)
    {
      currentPage := page;
      request := page;
    }

    /**
     * The list effect: on mount and whenever the filters, the sort or
     * fetchInterviewers change, page 1 becomes current and is requested
     * through the debounced fetch, which rebuilds the amounts.
     */
    method ListEffect() returns (request: int)
      modifies this
      ensures currentPage == 1 && request == 1
      ensures interviewers == old(interviewers) && amounts == old(amounts)
      ensures totalPages == old(totalPages) && totalItems == old(totalItems)
      ensures sort == old(sort) && filters == old(filters)
    {
      currentPage := 1;
      request := 1;
    }

    /**
     * handlePageChange as the page runs it: fetchInterviewers depends on the
     * current page, so a new current page recreates it and the debounced
     * fetch, and the list effect runs again, setting page 1 back and
     * requesting it. The pages requested are returned in order.
     */
    method PageChangeAsWritten(page: int) returns (requests: seq<int>)
      modifies this
      ensures page != old(currentPage) ==> currentPage == 1 && requests == [page, 1]
      ensures page == old(currentPage) ==> currentPage == page && requests == [page]
      ensures interviewers == old(interviewers) && amounts == old(amounts)
      ensures sort == old(sort) && filters == old(filters)
      ensures totalPages == old(totalPages) && totalItems == old(totalItems)
    {
      var before := currentPage;
      var first := PageChange(page);
      requests := [first];
      if currentPage != before {
        var again := ListEffect();
        requests := requests + [again];
      }
    }

    /**
     * A response arriving as the page runs it: a response for another page
     * than the current one changes the current page, which runs the list
     * effect again; reset tells whether it did.
     */
    method FetchAsWritten(response: Option<PageData>, preserveAmounts: bool) returns (reset: bool)
      modifies this
      ensures reset <==> response.Some? && response.value.page != old(currentPage)
      ensures reset ==> currentPage == 1
      ensures !reset ==> currentPage == old(currentPage)
      ensures response.Some? ==> interviewers == response.value.interviewers
      ensures response.Some? ==> totalPages == response.value.totalPages && totalItems == response.value.totalItems
      ensures response.None? ==> interviewers == old(interviewers)
      ensures response.None? ==> totalPages == old(totalPages) && totalItems == old(totalItems)
      ensures response.Some? && !preserveAmounts ==> amounts == AmountMap(response.value.interviewers)
      ensures response.None? || preserveAmounts ==> amounts == old(amounts)
      ensures sort == old(sort) && filters == old(filters)
    {
      var before := currentPage;
      Fetch(response, preserveAmounts);
      reset := currentPage != before;
      if reset {
        var again := ListEffect();
      }
    }

    /**
     * A page change as intended, with a fetch that does not depend on the
     * current page: the page becomes current, its rows are loaded with the
     * edited amounts kept, and it stays current.
     */
    method PageChangeAndLoad(page: int, response: Option<PageData>) returns (request: int)
      modifies this
      ensures request == page
      ensures response.Some? ==> currentPage == response.value.page && interviewers == response.value.interviewers
      ensures response.Some? ==> totalPages == response.value.totalPages && totalItems == response.value.totalItems
      ensures response.Some? && response.value.page == page ==> currentPage == page
      ensures response.None? ==> currentPage == page && interviewers == old(interviewers)
      ensures response.None? ==> totalPages == old(totalPages) && totalItems == old(totalItems)
      ensures amounts == old(amounts) && sort == old(sort) && filters == old(filters)
    {
      request := PageChange(page);
      Fetch(response, true);
    }

    /** handleAmountChange: only the row's edited amount changes. */
    method AmountChange(id: string, value: string)
      modifies this
      ensures amounts == old(amounts)[id := value]
      ensures interviewers == old(interviewers) && currentPage == old(currentPage)
      ensures sort == old(sort) && filters == old(filters)
      ensures totalPages == old(totalPages) && totalItems == old(totalItems)
    {
      amounts := amounts[id := value];
    }

    /**
     * handleAmountSave: nothing happens for an unknown row or an unchanged
     * amount; otherwise the edited amount is sent; on success the row's
     * amount becomes it, on failure the edit reverts to the stored amount.
     */
    method AmountSave(id: string, apiOk: bool) returns (sent: bool)
      modifies this
      ensures sent == SaveNeeded(old(interviewers), old(amounts), id)
      ensures !sent ==> interviewers == old(interviewers) && amounts == old(amounts)
      ensures sent && apiOk ==> amounts == old(amounts)
      ensures sent && apiOk ==>
        interviewers == SetAmount(old(interviewers), id, if id in old(amounts) then Some(old(amounts)[id]) else None)
      ensures sent && !apiOk ==> interviewers == old(interviewers)
      ensures sent && !apiOk ==> amounts == old(amounts)[id := StoredAmount(Find(old(interviewers), id).value)]
      ensures currentPage == old(currentPage) && sort == old(sort) && filters == old(filters)
      ensures totalPages == old(totalPages) && totalItems == old(totalItems)
    {
      var original := Find(interviewers, id);
      var newValue := if id in amounts then Some(amounts[id]) else None;
      sent := original.Some? && newValue != Some(StoredAmount(original.value));
      if sent {
        if apiOk {
          interviewers := SetAmount(interviewers, id, newValue);
        } else {
          amounts := amounts[id := StoredAmount(original.value)];
        }
      }
    }

    /** handleStatusChange: on success only the matching row's status changes; on failure nothing does. */
    method StatusChange(id: string, newStatus: string, apiOk: bool)
      modifies this
      ensures apiOk ==> interviewers == SetStatus(old(interviewers), id, newStatus)
      ensures !apiOk ==> interviewers == old(interviewers)
      ensures amounts == old(amounts) && currentPage == old(currentPage)
      ensures sort == old(sort) && filters == old(filters)
      ensures totalPages == old(totalPages) && totalItems == old(totalItems)
    {
      if apiOk {
        interviewers := SetStatus(interviewers, id, newStatus);
      }
    }
  }

  /** After a successful save of an edited amount the row's stored amount equals the edit, so a second blur sends nothing. */
  lemma SavedAmountIsSettled(list: seq<Interviewer>, amounts: map<string, string>, id: string)
    requires id in amounts && Find(list, id).Some?
    ensures !SaveNeeded(SetAmount(list, id, Some(amounts[id])), amounts, id)
  {
    var r := SetAmount(list, id, Some(amounts[id]));
    var f := Find(r, id);
    assert f.Some? by {
      var i :| 0 <= i < |list| && list[i] == Find(list, id).value;
      assert r[i].id == id;
    }
    var j :| 0 <= j < |r| && r[j] == f.value;
    assert StoredAmount(r[j]) == amounts[id];
  }

  /** A failed save leaves the edit equal to the stored amount, so the row shows its saved value again. */
  lemma RevertedAmountIsSettled(list: seq<Interviewer>, amounts: map<string, string>, id: string)
    requires Find(list, id).Some?
    ensures !SaveNeeded(list, amounts[id := StoredAmount(Find(list, id).value)], id)
  {
  }

  /** Right after a page is loaded with its amounts rebuilt, blurring a row with a unique id sends nothing. */
  lemma FreshAmountsAreSettled(list: seq<Interviewer>, k: nat)
    requires k < |list|
    requires forall i, j :: 0 <= i < j < |list| ==> list[i].id != list[j].id
    ensures !SaveNeeded(list, AmountMap(list), list[k].id)
  {
    AmountMapReadsRow(list, k);
    var f := Find(list, list[k].id);
    var j :| 0 <= j < |list| && list[j] == f.value;
    assert j == k;
  }

  /** A row loaded on a later page, whose amount was never put in the map, is sent as missing on blur. */
  lemma UnloadedAmountIsSent(list: seq<Interviewer>, amounts: map<string, string>, k: nat)
    requires k < |list| && list[k].id !in amounts
    ensures SaveNeeded(list, amounts, list[k].id)
  {
    assert Find(list, list[k].id).Some?;
  }
}
