/**
 * The main sheet table: the footer's "Showing first to last of total" range,
 * the prev/next page requests, saving one cell of an entry, choosing an
 * interviewer, keeping the sorted list of hiring names, and the delete guard.
 */
module MainSheet {
  import opened Wrappers
  import opened Text

  /** The page size requested from the server. */
  const PageSize: nat := 20

  /** An interviewer as stored on an entry once chosen in the table. */
  datatype Interviewer = Interviewer(id: string, firstName: string, lastName: string, email: string)

  /** The value of one property of an entry: text, an interviewer, or null. */
  datatype Value = Text(text: string) | Person(person: Interviewer) | Null

  /** A main-sheet entry: its id and its properties by name. */
  datatype Entry = Entry(id: string, fields: map<string, Value>)

  /** One option of the interviewer select: the interviewer id, "first last" and the e-mail. */
  datatype InterviewerOption = InterviewerOption(value: string, title: string, email: string)

  /** One page of entries as returned by the server. */
  datatype PageData = PageData(entries: seq<Entry>, currentPage: int, totalPages: int, totalItems: int)

  // ------------------------------------------------------------- footer

  /** The footer's bounds: (currentPage - 1) * 20 + 1 and Math.min(currentPage * 20, totalItems). */
  function FooterRange(currentPage: int, totalItems: int): (r: (int, int))
    ensures r.1 <= totalItems
    ensures (currentPage - 1) * PageSize < totalItems ==> r.0 <= r.1
    ensures r.1 - r.0 < PageSize
    ensures 1 <= currentPage ==> 1 <= r.0
  {
    var last := if currentPage * PageSize < totalItems then currentPage * PageSize else totalItems;
    ((currentPage - 1) * PageSize + 1, last)
  }

  /** On a page that holds entries, the footer counts exactly the entries of that page. */
  lemma FooterCountsPage(currentPage: int, totalItems: int)
    requires 1 <= currentPage && (currentPage - 1) * PageSize < totalItems
    ensures var (first, last) := FooterRange(currentPage, totalItems);
      last - first + 1 == (if currentPage * PageSize <= totalItems then PageSize else totalItems - (currentPage - 1) * PageSize)
  {
  }

  // ------------------------------------------------------ prev and next

  /**
   * The prev button as written: the button component drops the `disabled`
   * prop it is given, so a click always requests currentPage - 1.
   */
  function PrevRequestAsWritten(loading: bool, currentPage: int): (r: Option<int>)
    ensures r == Some(currentPage - 1)
  {
    Some(currentPage - 1)
  }

  /** The next button as written: always requests currentPage + 1. */
  function NextRequestAsWritten(loading: bool, currentPage: int, totalPages: int): (r: Option<int>)
    ensures r == Some(currentPage + 1)
  {
    Some(currentPage + 1)
  }

  /** The prev button as its `disabled` expression intends: no request while loading or on the first page. */
  function PrevRequest(loading: bool, currentPage: int): (r: Option<int>)
    ensures r.Some? <==> !loading && 1 < currentPage
    ensures r.Some? ==> r.value == currentPage - 1
  {
    if loading || currentPage <= 1 then None else Some(currentPage - 1)
  }

  /** The next button as intended: no request while loading or on the last page. */
  function NextRequest(loading: bool, currentPage: int, totalPages: int): (r: Option<int>)
    ensures r.Some? <==> !loading && currentPage < totalPages
    ensures r.Some? ==> r.value == currentPage + 1
  {
    if loading || currentPage >= totalPages then None else Some(currentPage + 1)
  }

  /** As written, prev on the first page asks for page 0 and next on the last page asks past the end. */
  lemma ButtonsLeaveRangeAsWritten(totalPages: int)
    requires 1 <= totalPages
    ensures PrevRequestAsWritten(false, 1) == Some(0)
    ensures NextRequestAsWritten(false, totalPages, totalPages) == Some(totalPages + 1)
    ensures PrevRequest(false, 1).None? && NextRequest(false, totalPages, totalPages).None?
  {
  }

  /** With the intended guards every requested page lies within 1..totalPages. */
  lemma ButtonsStayInRange(loading: bool, currentPage: int, totalPages: int)
    requires 1 <= currentPage <= totalPages
    ensures var p := PrevRequest(loading, currentPage); p.Some? ==> 1 <= p.value <= totalPages
    ensures var n := NextRequest(loading, currentPage, totalPages); n.Some? ==> 1 <= n.value <= totalPages
  {
  }

  // ---------------------------------------------------------- cell edits

  /** entry[key] || '': the text of a property, empty when missing or not text. */
  function FieldText(e: Entry, key: string): (r: string)
    ensures key !in e.fields ==> r == []
  {
    if key in e.fields && e.fields[key].Text? then e.fields[key].text else []
  }

  /** { ...e, [key]: value }: one property replaced, every other kept. */
  function SetField(e: Entry, key: string, value: Value): (r: Entry)
    ensures r.id == e.id && r.fields.Keys == e.fields.Keys + {key} && r.fields[key] == value
    ensures forall k :: k in e.fields && k != key ==> r.fields[k] == e.fields[k]
  {
    Entry(e.id, e.fields[key := value])
  }

  /** entries.map(e => e._id === id ? { ...e, [key]: value } : e) */
  function UpdateEntries(entries: seq<Entry>, id: string, key: string, value: Value): (r: seq<Entry>)
    ensures |r| == |entries|
    ensures forall i :: 0 <= i < |entries| ==>
      r[i] == if entries[i].id == id then SetField(entries[i], key, value) else entries[i]
  {
    seq(|entries|, i requires 0 <= i < |entries| =>
      if entries[i].id == id then SetField(entries[i], key, value) else entries[i])
  }

  predicate HasEntry(entries: seq<Entry>, id: string)
  {
    exists i :: 0 <= i < |entries| && entries[i].id == id
  }

  /** The hiring-name list after a save: only a new non-empty hiring name joins it. */
  function HiringNamesAfter(names: seq<string>, key: string, value: string): (r: seq<string>)
    ensures key == "hiringName" && value != [] && value !in names ==>
      Sorted(r) && multiset(r) == multiset(names) + multiset{value}
    ensures key != "hiringName" || value == [] || value in names ==> r == names
  {
    if key == "hiringName" then AddSorted(names, value) else names
  }

  /** The message shown when a save fails. */
  function SaveFailed(key: string): string
  {
    "Failed to update " + key + "."
  }

  /**
   * The interviewer stored after choosing an option: first name is the label
   * before its first space, last name the rest of the label; an id that is
   * not among the options stores null.
   */
  function ChosenInterviewer(options: seq<InterviewerOption>, id: string): (r: Value)
    ensures r.Null? <==> forall i :: 0 <= i < |options| ==> options[i].value != id
    ensures r.Person? ==> r.person.id == id
  {
    var k := FirstOption(options, id);
    if k < 0 then Null
    else
      var o := options[k];
      var (first, last) := SplitName(o.title);
      Person(Interviewer(o.value, first, last, o.email))
  }

  /** The position of the first option with the id, or -1. */
  function FirstOption(options: seq<InterviewerOption>, id: string): (r: int)
    ensures -1 <= r < |options|
    ensures r >= 0 ==> options[r].value == id && forall k :: 0 <= k < r ==> options[k].value != id
    ensures r < 0 ==> forall k :: 0 <= k < |options| ==> options[k].value != id
    decreases |options|
  {
    if options == [] then -1
    else if options[0].value == id then 0
    else
      var t := FirstOption(options[1..], id);
      if t < 0 then -1 else t + 1
  }

  /** label.split(' ')[0] and label.split(' ').slice(1).join(' '). */
  function SplitName(title: string): (r: (string, string))
  {
    var pieces := Split(title, {' '});
    (pieces[0], Join(pieces[1..], ' '))
  }

  /** The first name holds no space; with a space in the label, first + ' ' + last is the label. */
  lemma SplitNameRoundTrip(title: string)
    ensures forall k :: 0 <= k < |SplitName(title).0| ==> SplitName(title).0[k] != ' '
    ensures CountIn(title, {' '}) > 0 ==> SplitName(title).0 + " " + SplitName(title).1 == title
    ensures CountIn(title, {' '}) == 0 ==> SplitName(title) == (title, [])
  {
    var pieces := Split(title, {' '});
    JoinSplit(title, ' ');
    if CountIn(title, {' '}) == 0 {
      assert |pieces| == 1 && pieces[1..] == [];
      assert Join(pieces, ' ') == pieces[0];
    } else {
      assert Join(pieces, ' ') == pieces[0] + [' '] + Join(pieces[1..], ' ');
    }
  }

  /** The option label "first last" splits back into the interviewer's names when the first name has no space. */
  lemma SplitNameOfLabel(first: string, last: string)
    requires forall k :: 0 <= k < |first| ==> first[k] != ' '
    ensures SplitName(first + " " + last) == (first, last)
  {
    SplitFirstPiece(first, last, ' ');
    var pieces := Split(first + " " + last, {' '});
    assert pieces[1..] == Split(last, {' '});
    JoinSplit(last, ' ');
  }

  /** Choosing an option built as "first last" stores exactly that interviewer's names and e-mail. */
  lemma ChosenInterviewerFromOption(options: seq<InterviewerOption>, k: nat, first: string, last: string)
    requires k < |options| && forall j :: 0 <= j < k ==> options[j].value != options[k].value
    requires options[k].title == first + " " + last
    requires forall i :: 0 <= i < |first| ==> first[i] != ' '
    ensures ChosenInterviewer(options, options[k].value) ==
      Person(Interviewer(options[k].value, first, last, options[k].email))
  {
    assert FirstOption(options, options[k].value) == k;
    SplitNameOfLabel(first, last);
  }

  /**
   * EditableHiringName.handleChange: picking the value the entry already has
   * (a cleared select counts as '') saves nothing; otherwise the new name is saved.
   */
  function HiringNameEdit(e: Entry, newName: string): (r: Option<string>)
    ensures r.None? <==> newName == FieldText(e, "hiringName")
    ensures r.Some? ==> r.value == newName
  {
    if newName == FieldText(e, "hiringName") then None else Some(newName)
  }

  /** EditableDomainCell.handleSave: picking the shown tech stack saves nothing. */
  function TechStackEdit(currentValue: string, newDomain: string): (r: Option<string>)
    ensures r.None? <==> newDomain == currentValue
    ensures r.Some? ==> r.value == newDomain
  {
    if newDomain == currentValue then None else Some(newDomain)
  }

  /** The sheet's state: the page of entries, the pagination, the hiring names and the pending delete. */
  class Sheet {
    var entries: seq<Entry>
    var hiringNames: seq<string>
    var currentPage: int
    var totalPages: int
    var totalItems: int
    var pendingDelete: Option<Entry>

    /** The sheet before the first fetch. */
    constructor()
      ensures entries == [] && hiringNames == [] && pendingDelete.None?
      ensures currentPage == 1 && totalPages == 1 && totalItems == 0
    {
      entries := [];
      hiringNames := [];
      currentPage := 1;
      totalPages := 1;
      totalItems := 0;
      pendingDelete := None;
    }

    /** fetchEntries: a response replaces the entries and the pagination; a failure keeps both. */
    method Fetch(response: Option<PageData>)
      modifies this
      ensures response.Some? ==> entries == response.value.entries && currentPage == response.value.currentPage
      ensures response.Some? ==> totalPages == response.value.totalPages && totalItems == response.value.totalItems
      ensures response.None? ==> entries == old(entries) && currentPage == old(currentPage)
      ensures response.None? ==> totalPages == old(totalPages) && totalItems == old(totalItems)
      ensures hiringNames == old(hiringNames) && pendingDelete == old(pendingDelete)
    {
      if response.Some? {
        entries := response.value.entries;
        currentPage := response.value.currentPage;
        totalPages := response.value.totalPages;
        totalItems := response.value.totalItems;
      }
    }

    /**
     * handleCellSave: an unknown id or a failed update reports an error and
     * changes nothing; otherwise the entry's property is replaced and a new
     * hiring name joins the sorted list.
     */
    method CellSave(entryId: string, fieldKey: string, newValue: string, apiOk: bool) returns (error: Option<string>)
      modifies this
      ensures error.Some? <==> !HasEntry(old(entries), entryId) || !apiOk
      ensures error.Some? ==> error.value == SaveFailed(fieldKey) && entries == old(entries) && hiringNames == old(hiringNames)
      ensures error.None? ==> entries == UpdateEntries(old(entries), entryId, fieldKey, Text(newValue))
      ensures error.None? ==> hiringNames == HiringNamesAfter(old(hiringNames), fieldKey, newValue)
      ensures currentPage == old(currentPage) && totalPages == old(totalPages) && totalItems == old(totalItems)
      ensures pendingDelete == old(pendingDelete)
    {
      if !HasEntry(entries, entryId) || !apiOk {
        return Some(SaveFailed(fieldKey));
      }
      entries := UpdateEntries(entries, entryId, fieldKey, Text(newValue));
      hiringNames := HiringNamesAfter(hiringNames, fieldKey, newValue);
      error := None;
    }

    /**
     * handleInterviewerChange: the interviewer id is saved as a cell, and then,
     * whether or not that save succeeded, the matching entry's interviewer is
     * set to the chosen option (or null).
     */
    method InterviewerChange(entryId: string, newInterviewerId: string, options: seq<InterviewerOption>, apiOk: bool)
      modifies this
      ensures entries == UpdateEntries(old(entries), entryId, "interviewer", ChosenInterviewer(options, newInterviewerId))
      ensures hiringNames == old(hiringNames) && pendingDelete == old(pendingDelete)
      ensures currentPage == old(currentPage) && totalPages == old(totalPages) && totalItems == old(totalItems)
    {
      var _ := CellSave(entryId, "interviewer", newInterviewerId, apiOk);
      UpdateTwice(old(entries), entryId, "interviewer", Text(newInterviewerId), ChosenInterviewer(options, newInterviewerId));
      entries := UpdateEntries(entries, entryId, "interviewer", ChosenInterviewer(options, newInterviewerId));
    }

    /** handleDeleteRequest: the dialog opens for the entry. */
    method DeleteRequest(e: Entry)
      modifies this
      ensures pendingDelete == Some(e)
      ensures entries == old(entries) && hiringNames == old(hiringNames) && currentPage == old(currentPage)
      ensures totalPages == old(totalPages) && totalItems == old(totalItems)
    {
      pendingDelete := Some(e);
    }

    /**
     * handleDeleteConfirm: with no pending entry nothing happens; otherwise the
     * entry's id is deleted, the current page is requested again on success,
     * and the dialog closes either way.
     */
    method DeleteConfirm(apiOk: bool) returns (deleted: Option<string>, refetch: Option<int>)
      modifies this
      ensures old(pendingDelete).None? ==> deleted.None? && refetch.None? && pendingDelete.None?
      ensures old(pendingDelete).Some? ==> deleted == Some(old(pendingDelete).value.id) && pendingDelete.None?
      ensures refetch.Some? <==> old(pendingDelete).Some? && apiOk
      ensures refetch.Some? ==> refetch.value == currentPage
      ensures entries == old(entries) && hiringNames == old(hiringNames) && currentPage == old(currentPage)
      ensures totalPages == old(totalPages) && totalItems == old(totalItems)
    {
      if pendingDelete.None? {
        return None, None;
      }
      deleted := Some(pendingDelete.value.id);
      refetch := if apiOk then Some(currentPage) else None;
      pendingDelete := None;
    }
  }

  /** A second update of the same property by id overrides the first. */
  lemma UpdateTwice(entries: seq<Entry>, id: string, key: string, v: Value, w: Value)
    ensures UpdateEntries(UpdateEntries(entries, id, key, v), id, key, w) == UpdateEntries(entries, id, key, w)
  {
    var a := UpdateEntries(UpdateEntries(entries, id, key, v), id, key, w);
    var b := UpdateEntries(entries, id, key, w);
    forall i | 0 <= i < |entries|
      ensures a[i] == b[i]
    {
      if entries[i].id == id {
        assert entries[i].fields[key := v][key := w] == entries[i].fields[key := w];
      }
    }
  }

  /** A save leaves every entry with another id, and every other property, as it was. */
  lemma SaveTouchesOneCell(entries: seq<Entry>, id: string, key: string, v: Value, i: nat, k: string)
    requires i < |entries|
    ensures var r := UpdateEntries(entries, id, key, v);
      (entries[i].id != id ==> r[i] == entries[i]) &&
      (k != key && k in entries[i].fields ==> k in r[i].fields && r[i].fields[k] == entries[i].fields[k])
  {
  }

  /** A save for an id not on the page leaves the entries as they were. */
  lemma UnknownIdChangesNothing(entries: seq<Entry>, id: string, key: string, v: Value)
    requires !HasEntry(entries, id)
    ensures UpdateEntries(entries, id, key, v) == entries
  {
    var r := UpdateEntries(entries, id, key, v);
    assert forall i :: 0 <= i < |entries| ==> r[i] == entries[i];
  }

  /** Saving a hiring name twice adds it once: the second save finds it in the list. */
  lemma HiringNameAddedOnce(names: seq<string>, value: string)
    requires value != [] && value !in names
    ensures var once := HiringNamesAfter(names, "hiringName", value);
      multiset(once)[value] == 1 && HiringNamesAfter(once, "hiringName", value) == once
  {
    AddSortedOnce(names, value);
  }
}
