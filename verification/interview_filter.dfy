/**
 * The interviewer's assigned-interview list filter: a free-text search over
 * the candidate's name and e-mail, an exact status match and a calendar-day
 * match, all three required.
 */
module InterviewFilter {
  import opened Wrappers
  import opened Text
  import opened Seqs

  /**
   * An assigned interview. Name, e-mail, status and date may be missing; a
   * date is its calendar day.
   */
  datatype Interview = Interview(candidateName: Option<string>, mailId: Option<string>,
    interviewStatus: Option<string>, interviewDay: Option<int>)

  /** The filter controls: the search text, the status ('' for any) and the chosen day, if any. */
  datatype Controls = Controls(search: string, status: string, day: Option<int>)

  /** field?.toLowerCase().includes(term): a missing field never matches. */
  predicate FieldMatches(field: Option<string>, termLower: string)
  {
    field.Some? && Contains(ToLower(field.value), termLower)
  }

  predicate MatchesSearch(item: Interview, search: string)
  {
    search == [] || FieldMatches(item.candidateName, ToLower(search)) || FieldMatches(item.mailId, ToLower(search))
  }

  predicate MatchesStatus(item: Interview, status: string)
  {
    status == [] || item.interviewStatus == Some(status)
  }

  predicate MatchesDate(item: Interview, day: Option<int>)
  {
    day.None? || (item.interviewDay.Some? && item.interviewDay.value == day.value)
  }

  /** The filter's callback: all three conditions. */
  predicate Kept(item: Interview, c: Controls)
  {
    MatchesSearch(item, c.search) && MatchesStatus(item, c.status) && MatchesDate(item, c.day)
  }

  /** filteredInterviews: the kept interviews, in their order. */
  function FilteredInterviews(interviews: seq<Interview>, c: Controls): (r: seq<Interview>)
    ensures |r| <= |interviews|
    ensures forall x :: x in r <==> x in interviews && Kept(x, c)
  {
    Filter(interviews, (x: Interview) => Kept(x, c))
  }

  /** The result keeps the list's order: it is a subsequence of the assigned interviews. */
  lemma FilteredIsSubsequence(interviews: seq<Interview>, c: Controls)
    ensures IsSubsequence(FilteredInterviews(interviews, c), interviews)
  {
    FilterIsSubsequence(interviews, (x: Interview) => Kept(x, c));
  }

  /** With every control empty the whole list is shown. */
  lemma EmptyControlsKeepAll(interviews: seq<Interview>)
    ensures FilteredInterviews(interviews, Controls("", "", None)) == interviews
  {
    FilterKeepsAll(interviews, (x: Interview) => Kept(x, Controls("", "", None)));
  }

  /** An interview with neither name nor e-mail is hidden by any non-empty search. */
  lemma MissingFieldsNeverMatch(item: Interview, c: Controls)
    requires item.candidateName.None? && item.mailId.None? && c.search != []
    ensures item !in FilteredInterviews([item], c)
  {
  }

  /** With a day chosen, an interview without a date is hidden. */
  lemma UndatedHiddenByDay(item: Interview, c: Controls)
    requires item.interviewDay.None? && c.day.Some?
    ensures item !in FilteredInterviews([item], c)
  {
  }

  /** The search ignores the case of the term. */
  lemma SearchIgnoresCase(item: Interview, search: string)
    ensures MatchesSearch(item, search) <==> MatchesSearch(item, ToLower(search))
  {
    ToLowerIdempotent(search);
    assert search == [] <==> ToLower(search) == [];
  }

  /** The conjunction is the three filters applied one after another, in any of these steps. */
  lemma ConjunctionIsSuccessiveFilters(interviews: seq<Interview>, c: Controls)
    ensures Filter(Filter(Filter(interviews, (x: Interview) => MatchesSearch(x, c.search)),
      (x: Interview) => MatchesStatus(x, c.status)), (x: Interview) => MatchesDate(x, c.day))
      == FilteredInterviews(interviews, c)
  {
    var s := (x: Interview) => MatchesSearch(x, c.search);
    var t := (x: Interview) => MatchesStatus(x, c.status);
    var d := (x: Interview) => MatchesDate(x, c.day);
    var st := (x: Interview) => MatchesSearch(x, c.search) && MatchesStatus(x, c.status);
    FilterFilter(interviews, s, t, st);
    FilterFilter(interviews, st, d, (x: Interview) => Kept(x, c));
  }
}
