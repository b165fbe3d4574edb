# Interview community admin client: a verified model of its rules

This Dafny project models the deterministic rules of the interview community's web client. The admins use it to run an interviewer-hiring pipeline. The interviewers and applicants use it for their own forms. Eight client files are modelled, one module each:

- **StudentRoster** (`StudentBookings.jsx`)
  - The student roster import: pasted CSV/TSV text becomes student records, each marked valid or invalid with a message.
  - The save of the valid rows.
  - The confirmed-booking pipeline: its search, its date/domain/public-link filters and its cell edits, including the sorted list of host e-mails.
- **AdminBadges** (`AdminLayout.jsx`)
  - The sidebar's pending-count badges. A badge is hidden once its page is visited and returns only when the count grows.
  - The page title.
  - The full-page layout choice.
- **Questionnaire** (`GuidelinesQuestionnaireForm.jsx`)
  - The seventeen-question guidelines questionnaire: a fixed answers array and a bounded cursor.
  - The all-answered gate and the submitted payload.
  - The `mm:ss` clock.
- **ApplicationForm** (`InitialApplicationForm.jsx`)
  - The interviewer application form's field rules: required fields, the e-mail pattern, the phone pattern and the LinkedIn check.
- **ReviewQueue** (`SkillCategorizationPage.jsx`)
  - The skill-categorization queue: the preselected domains and the submit gate.
  - Which assessment is selected after one is processed, and which page is fetched when the queue runs empty.
- **MainSheet** (`MainSheet.jsx`)
  - The main sheet's footer range and prev/next requests.
  - Cell saves, the sorted hiring-name list, the interviewer choice (with its first/last-name split) and the delete guard.
- **InterviewerList** (`Interviewers.jsx`)
  - The interviewer list's sort toggle and its filter and page resets.
  - The editable payment amounts: built from a fetched page, saved on blur, reverted when the save fails.
  - The status change.
- **InterviewFilter** (`InterviewEvaluation.jsx`)
  - The interviewer's assigned-interview filter, which requires all of search, status and day to match.

Three shared modules support them:

- **Seqs** holds `Array.prototype.filter` and the subsequence relation.
- **Text** holds JavaScript's string operations as the code uses them: `trim`, `toLowerCase`, `includes`, `split`, `join`, `padStart`, decimal rendering and default `sort`.
- **Wrappers** holds `Option` and `Result`.

The components keep state that their handlers update. That state is modelled as classes:

| Class | Source file |
|---|---|
| `Pipeline` | `StudentBookings.jsx` |
| `BadgeTracker` | `AdminLayout.jsx` |
| `GuidelinesForm` | `GuidelinesQuestionnaireForm.jsx` (its answers are an `array`) |
| `Queue` | `SkillCategorizationPage.jsx` |
| `Sheet` | `MainSheet.jsx` |
| `Roster` | `Interviewers.jsx` |

Each method's `ensures` gives the new state in terms of the functions beside it, and the lemmas state what the code promises about those functions.

Calls to the server and alerts are not modelled as such. Each API outcome is an input instead: a boolean `apiOk`, or an `Option` response where `None` is a failed request. A handler that would start a fetch returns the page it requests. Dates are whole day numbers. `Date.now()` is a parameter.

Five behaviours follow the code rather than what one might expect:

- The booking search stringifies each value, so a missing field reads as `"undefined"` and can match (`StudentRoster.MissingFieldReadsUndefined`).
- The acknowledgment key is the last piece of `pathname.split('/admin/')`.
- The main sheet's interviewer change overwrites the entry's interviewer even when the save before it failed.
- A row loaded by a page change that keeps the edited amounts has no entry in the amount map, so blurring its amount field sends a missing amount (`InterviewerList.UnloadedAmountIsSent`). As written this lasts only until the list effect brings page 1 back and rebuilds the map (see Findings).
- The student roster's e-mail test is unanchored, so any substring of the shape `x@y.z` passes.

## Model

| member | source | states |
|---|---|---|
| StudentRoster.ParseRows | client/src/pages/admin/StudentBookings.jsx:47-63 | each line gives at most one record, so there are never more records than lines |
| StudentRoster.RecordsAtMostLines | client/src/pages/admin/StudentBookings.jsx:46-63 | a non-empty paste yields at most one record per line of the trimmed text (newline count + 1) |
| StudentRoster.ColumnMapping | client/src/pages/admin/StudentBookings.jsx:53-59 | fewer than five columns give an empty e-mail and resume link; columns past the seventh are ignored; the e-mail is column 4 trimmed and lowercased |
| StudentRoster.FieldsAreTrimmed | client/src/pages/admin/StudentBookings.jsx:53-59 | every field of a parsed record is trimmed (no leading or trailing whitespace) |
| StudentRoster.LowerKeepsTrimmed | client/src/pages/admin/StudentBookings.jsx:57 | lowercasing a trimmed string leaves it trimmed, so the e-mail column is trimmed after `toLowerCase` |
| StudentRoster.RecordEmailIsLowerCase | client/src/pages/admin/StudentBookings.jsx:57 | the record of one row has a lower-case e-mail |
| StudentRoster.ParsedRecordsAreLowerCase | client/src/pages/admin/StudentBookings.jsx:48-63 | every parsed record's e-mail is already lower case |
| StudentRoster.ParseRowsAppend | client/src/pages/admin/StudentBookings.jsx:48-63 | parsing is row by row: the records of two blocks of lines are the records of each block, concatenated |
| StudentRoster.LooseEmailMatchesRegex | client/src/pages/admin/StudentBookings.jsx:66 | the e-mail test holds exactly when some substring is non-space run, '@', non-space run, '.', non-space run (the unanchored `\S+@\S+\.\S+`) |
| StudentRoster.Validate | client/src/pages/admin/StudentBookings.jsx:65-69 | a record is valid iff its e-mail passes and its name is non-empty; a failing e-mail reports the e-mail message first, else a missing name reports the name message; the fields are kept |
| StudentRoster.ValidateAll | client/src/pages/admin/StudentBookings.jsx:65-69 | every record is validated, one result per record, in order |
| StudentRoster.ProcessData | client/src/pages/admin/StudentBookings.jsx:45-63 | empty text leaves the roster alone; otherwise entry k is the validation of parsed record k, one per record |
| StudentRoster.InvalidCount | client/src/pages/admin/StudentBookings.jsx:100-101 | valid count plus invalid count is the number of records |
| StudentRoster.ValidAndInvalidPartition | client/src/pages/admin/StudentBookings.jsx:100-101 | every record is counted as exactly one of valid or invalid |
| StudentRoster.Strip | client/src/pages/admin/StudentBookings.jsx:91 | dropping the validation marks keeps each record's fields, one per row |
| StudentRoster.HandleSave | client/src/pages/admin/StudentBookings.jsx:90-92 | no valid record gives the "No valid student data found." error and no save; otherwise the records sent are the valid rows in paste order with their marks stripped, as many as the valid count |
| StudentRoster.SaveSendsEveryValidRow | client/src/pages/admin/StudentBookings.jsx:90-92 | every valid row is sent, at the position given by the number of valid rows before it |
| StudentRoster.SaveKeepsRowOrder | client/src/pages/admin/StudentBookings.jsx:90-92 | of two valid rows the earlier one is sent at an earlier position |
| StudentRoster.ValidatedSaveFromInput | client/src/pages/admin/StudentBookings.jsx:65-92 | every record a save sends is one of the input students, with a passing e-mail and a non-empty name |
| StudentRoster.SavedRecordsAreUsable | client/src/pages/admin/StudentBookings.jsx:45-92 | every record a save sends has a passing lower-case e-mail and a non-empty name |
| StudentRoster.FieldText | client/src/pages/admin/StudentBookings.jsx:324 | a present field reads as its value and a missing one as "undefined" (`String(value)`) |
| StudentRoster.InterviewerName | client/src/pages/admin/StudentBookings.jsx:324 | the interviewer's name is empty exactly when no interviewer is booked |
| StudentRoster.SetField | client/src/pages/admin/StudentBookings.jsx:343 | the saved field takes the new value and every other field, the id, the interviewer and the date are unchanged |
| StudentRoster.UpdateBookings | client/src/pages/admin/StudentBookings.jsx:343 | bookings with another id are kept as they are; a booking with the matching id becomes its spread update, so only the named field changes and its id, interviewer, day and other fields are kept |
| StudentRoster.HostEmailsAfter | client/src/pages/admin/StudentBookings.jsx:343 | a new non-empty host e-mail joins the list, which is then sorted and a permutation of the old list plus it; any other save leaves the list alone |
| StudentRoster.SuccessiveFiltersAreShown | client/src/pages/admin/StudentBookings.jsx:322-329 | applying the search, day, domain and public-link filters one after another equals one filter by their conjunction |
| StudentRoster.Pipeline.FilteredBookings | client/src/pages/admin/StudentBookings.jsx:322-329 | the result is exactly the bookings that pass the search and every active filter, in list order and with repeats kept (ShownBookings); no term and no filters return the whole list |
| StudentRoster.Pipeline.CellSave | client/src/pages/admin/StudentBookings.jsx:343 | the bookings and the host e-mails become their updated values as above |
| StudentRoster.SearchIgnoresTermCase | client/src/pages/admin/StudentBookings.jsx:324 | the search gives the same answer for a term and its lowercase form |
| StudentRoster.MissingFieldReadsUndefined | client/src/pages/admin/StudentBookings.jsx:324 | a booking without a student name is found by the term "def" |
| StudentRoster.HostEmailAddedOnce | client/src/pages/admin/StudentBookings.jsx:343 | a host e-mail added by a save occurs in the list exactly once |
| StudentRoster.SaveKeepsShown | client/src/pages/admin/StudentBookings.jsx:322-343 | saving a field that no search or filter reads does not change whether a booking is shown |
| AdminBadges.CountKeyFor | client/src/layouts/AdminLayout.jsx:75-80 | a path has a count key exactly when it is one of the three badge paths |
| AdminBadges.CountOf | client/src/layouts/AdminLayout.jsx:84 | a missing count reads as 0 |
| AdminBadges.Acknowledge | client/src/layouts/AdminLayout.jsx:28-44 | only the visited page's key may change; a page without a count key changes nothing; a badge page records the current count when there is one and changes nothing otherwise |
| AdminBadges.DisplayCount | client/src/layouts/AdminLayout.jsx:82-94 | no count key shows nothing; a never-acknowledged badge shows the count iff it is positive; an acknowledged one shows it iff it is strictly greater than the acknowledged count |
| AdminBadges.NavItemsWithCounts | client/src/layouts/AdminLayout.jsx:72-97 | the nav list keeps its length, order, titles and paths and only gains each item's display count |
| AdminBadges.NavTitlesNonEmpty | client/src/layouts/AdminLayout.jsx:54-70 | every sidebar entry has a non-empty title, so a match never falls back to the default title |
| AdminBadges.FirstMatch | client/src/layouts/AdminLayout.jsx:100-103 | the result is the first item whose path equals the pathname or (except the dashboard) is a prefix of it |
| AdminBadges.PageTitle | client/src/layouts/AdminLayout.jsx:99-105 | the title of the first matching item, or "Admin Panel" when none matches |
| AdminBadges.BadgeTracker.constructor | client/src/layouts/AdminLayout.jsx:12-15 | on mount: the current pathname, no fetched counts and nothing acknowledged |
| AdminBadges.BadgeTracker.Navigate | client/src/layouts/AdminLayout.jsx:28-44 | a navigation sets the pathname and acknowledges as above with the current counts |
| AdminBadges.BadgeTracker.ReceiveCounts | client/src/layouts/AdminLayout.jsx:19-44 | new counts replace the old ones and the current page acknowledges them |
| AdminBadges.PathKey | client/src/layouts/AdminLayout.jsx:29 | the last piece of the pathname split on "/admin/" |
| AdminBadges.PathKeyOfAdminPath | client/src/layouts/AdminLayout.jsx:29 | the key of "/admin/k" is k when k contains no "/admin/" |
| AdminBadges.NoSlashNoAdminPrefix | client/src/layouts/AdminLayout.jsx:29 | a key without '/' cannot contain "/admin/" |
| AdminBadges.BadgePathKeys | client/src/layouts/AdminLayout.jsx:29-78 | the three badge paths give back their own keys, so the visit and the badge agree on the key |
| AdminBadges.VisitHidesBadge | client/src/layouts/AdminLayout.jsx:38-93 | right after visiting a badge page its badge is hidden |
| AdminBadges.BadgeReturnsOnlyOnIncrease | client/src/layouts/AdminLayout.jsx:38-93 | after a visit the badge returns exactly when a later count strictly exceeds the recorded one |
| AdminBadges.SubRouteAcknowledgesNothing | client/src/layouts/AdminLayout.jsx:29-36 | visiting "/admin/k" for a k other than the three badge keys leaves the acknowledgments unchanged |
| AdminBadges.OtherBadgesKept | client/src/layouts/AdminLayout.jsx:39-42 | a visit does not change any other badge's display, acknowledged before or not |
| AdminBadges.OwnPathFindsEntry | client/src/layouts/AdminLayout.jsx:100-103 | an item that no earlier item's path prefixes is found for its own path |
| AdminBadges.DashboardNotPrefix | client/src/layouts/AdminLayout.jsx:102 | "/admin/dashboard" is titled "Dashboard" but a dashboard sub-path is not, since the dashboard does not match by prefix |
| AdminBadges.UseFullPageLayout | client/src/layouts/AdminLayout.jsx:107-123 | the pathname starts with one of the thirteen full-page paths |
| AdminBadges.FullPageIsNonDashboardEntry | client/src/layouts/AdminLayout.jsx:107-123 | the full-page layout is used exactly when the pathname starts with a sidebar path (lines 54-70) other than the dashboard's |
| AdminBadges.FullPageHasTitle | client/src/layouts/AdminLayout.jsx:99-123 | every full-page path has a sidebar title |
| Questionnaire.FormatTime | client/src/components/forms/GuidelinesQuestionnaireForm.jsx:119-123 | the rendering has ':' before the last two characters; the field before it is the whole minutes in digits, and the last two are the remaining seconds, 00 to 59 |
| Questionnaire.FormatTimeRoundTrip | client/src/components/forms/GuidelinesQuestionnaireForm.jsx:119-123 | reading the rendering back as minutes * 60 + seconds gives the seconds |
| Questionnaire.ClockRoundTrip | client/src/components/forms/GuidelinesQuestionnaireForm.jsx:120-122 | padded minutes ':' padded seconds reads back as minutes * 60 + seconds for seconds below 60 |
| Questionnaire.FormatTimeWidth | client/src/components/forms/GuidelinesQuestionnaireForm.jsx:122 | under 100 minutes the rendering is exactly "mm:ss" |
| Questionnaire.TwoDigits | client/src/components/forms/GuidelinesQuestionnaireForm.jsx:121-122 | the seconds part always pads to exactly two digits |
| Questionnaire.CompletionTime | client/src/components/forms/GuidelinesQuestionnaireForm.jsx:152 | the whole seconds since the start, rounded down; 0 when there is no start time |
| Questionnaire.AnsweredCount | client/src/components/forms/GuidelinesQuestionnaireForm.jsx:172 | between 0 and the number of answers; equal to it iff no answer is empty; 0 iff all are empty |
| Questionnaire.Payload | client/src/components/forms/GuidelinesQuestionnaireForm.jsx:153-158 | one entry per question in order, numbered by the question id (index + 1), carrying its answer and the completion time |
| Questionnaire.SelectCount | client/src/components/forms/GuidelinesQuestionnaireForm.jsx:125-129 | answering an empty question raises the answered count (line 172) by one; re-answering leaves it |
| Questionnaire.GuidelinesForm.constructor | client/src/components/forms/GuidelinesQuestionnaireForm.jsx:101-103 | seventeen empty answers, the first question, no start time |
| Questionnaire.GuidelinesForm.SelectOption | client/src/components/forms/GuidelinesQuestionnaireForm.jsx:125-129 | only the current question's answer changes; Next is then enabled exactly when the chosen option is non-empty (line 300) |
| Questionnaire.GuidelinesForm.Previous | client/src/components/forms/GuidelinesQuestionnaireForm.jsx:131-135 | one question back, never below the first |
| Questionnaire.GuidelinesForm.Next | client/src/components/forms/GuidelinesQuestionnaireForm.jsx:137-141 | one question on, never past the last |
| Questionnaire.GuidelinesForm.Submit | client/src/components/forms/GuidelinesQuestionnaireForm.jsx:143-159 | refused with "Please answer all questions before submitting." iff some answer is empty; otherwise the payload with the completion time |
| Questionnaire.GuidelinesForm.Start | client/src/components/forms/GuidelinesQuestionnaireForm.jsx:107-108 | the start time becomes the given time; the cursor is kept |
| Questionnaire.GuidelinesForm.GoTo | client/src/components/forms/GuidelinesQuestionnaireForm.jsx:212 | a navigator button makes its question current, keeping the start time |
| Questionnaire.GuidelinesForm.NextEnabled | client/src/components/forms/GuidelinesQuestionnaireForm.jsx:300 | Next is enabled exactly when the current question has an answer |
| Questionnaire.GuidelinesForm.SidebarSubmitEnabled | client/src/components/forms/GuidelinesQuestionnaireForm.jsx:234 | the sidebar submit is enabled when every question is counted as answered and no submit is running |
| Questionnaire.GuidelinesForm.FinishSubmitEnabled | client/src/components/forms/GuidelinesQuestionnaireForm.jsx:310 | the last question's submit is enabled when every answer is non-empty and no submit is running |
| Questionnaire.SubmitButtonsAgree | client/src/components/forms/GuidelinesQuestionnaireForm.jsx:234 | the sidebar submit button and the last-question submit button (line 310) are enabled in exactly the same states, both read from the answered count (line 172) |
| Questionnaire.EnabledSubmitIsAccepted | client/src/components/forms/GuidelinesQuestionnaireForm.jsx:143-147 | an enabled submit button (line 234) means every answer is given, so the submission is not refused |
| ApplicationForm.PhonePattern | client/src/components/forms/InitialApplicationForm.jsx:98 | `^\d{10,15}$`: ten to fifteen ASCII digits and nothing else |
| ApplicationForm.PhoneRuleRejects | client/src/components/forms/InitialApplicationForm.jsx:95-100 | a non-empty number shorter than ten, longer than fifteen or holding a non-digit draws "Please enter a valid phone number" |
| ApplicationForm.PhoneRuleAccepts | client/src/components/forms/InitialApplicationForm.jsx:95-100 | ten to fifteen digits draw no phone message |
| ApplicationForm.EmailPatternShape | client/src/components/forms/InitialApplicationForm.jsx:76 | the anchored pattern accepts exactly: no whitespace, exactly one '@' with something before it, and a '.' after it with a character on each side |
| ApplicationForm.PatternHasShape | client/src/components/forms/InitialApplicationForm.jsx:76 | a string the pattern cuts into plain runs has no whitespace and a single '@' |
| ApplicationForm.OnlyAt | client/src/components/forms/InitialApplicationForm.jsx:76 | with one '@' counted, no other position holds '@' |
| ApplicationForm.EmailFromParts | client/src/components/forms/InitialApplicationForm.jsx:76 | local@domain.ext with plain, non-empty parts is accepted |
| ApplicationForm.FieldError | client/src/components/forms/InitialApplicationForm.jsx:57-153 | an empty field reports its required message before its own check; a failed check reports that check's message |
| ApplicationForm.Errors | client/src/components/forms/InitialApplicationForm.jsx:57-153 | each of the five required fields has a message iff it fails its rule, with the required/invalid message as appropriate; no other field has one |
| ApplicationForm.Submit | client/src/components/forms/InitialApplicationForm.jsx:20-153 | the data goes to the submit handler unchanged iff every registered rule passes; otherwise the messages are shown (the browser's own e-mail and url checks, which run first, are not modelled) |
| ApplicationForm.DefaultFormErrors | client/src/components/forms/InitialApplicationForm.jsx:57-185 | the untouched form reports "required" on the five required fields and nothing else (the placeholder sourcing value is empty); the checkbox starts checked |
| ApplicationForm.OptionalFieldsFree | client/src/components/forms/InitialApplicationForm.jsx:117-184 | WhatsApp number, comments and the checkbox never change the messages or the outcome |
| ApplicationForm.LinkedInAnyWrapping | client/src/components/forms/InitialApplicationForm.jsx:137-138 | the registered rule accepts any text around "linkedin.com/" (the browser's url check is not modelled) |
| ReviewQueue.InitialDomains | client/src/pages/admin/SkillCategorizationPage.jsx:120 | the assessment's domains if any, else its automatic domain if set, else none |
| ReviewQueue.SelectedDomains | client/src/pages/admin/SkillCategorizationPage.jsx:121 | the options, in option order, whose value is among the initial domains |
| ReviewQueue.InitialNotes | client/src/pages/admin/SkillCategorizationPage.jsx:122 | the notes field opens with the assessment's notes |
| ReviewQueue.PreselectionIsSubsequence | client/src/pages/admin/SkillCategorizationPage.jsx:121 | the preselection is in option order and holds exactly the options whose value is among the initial domains |
| ReviewQueue.UnknownDomainsBlockSubmit | client/src/pages/admin/SkillCategorizationPage.jsx:121-129 | when no option matches the initial domains the form opens in a state that cannot be submitted |
| ReviewQueue.OpenedFormRequest | client/src/pages/admin/SkillCategorizationPage.jsx:119-133 | the form as it opens is accepted exactly when some option is named by the assessment, and then sends the assessment's own notes |
| ReviewQueue.CategorizeRequest | client/src/pages/admin/SkillCategorizationPage.jsx:127-133 | an empty selection is refused with "Please select at least one domain."; otherwise the request carries the selected values in order and the notes |
| ReviewQueue.FindIndex | client/src/pages/admin/SkillCategorizationPage.jsx:198 | the first position with the id, or -1 when there is none |
| ReviewQueue.NextSelection | client/src/pages/admin/SkillCategorizationPage.jsx:201 | the entry at the old index, or the last entry when the index is past the end; nothing when the index is -1 |
| ReviewQueue.RefetchPage | client/src/pages/admin/SkillCategorizationPage.jsx:203-205 | the same page while it is before the last, else the previous page while above 1, else none |
| ReviewQueue.RefetchStaysInRange | client/src/pages/admin/SkillCategorizationPage.jsx:203-205 | from a page within 1..totalPages the requested page also lies within it; nothing is requested only when there is a single page |
| ReviewQueue.Queue.constructor | client/src/pages/admin/SkillCategorizationPage.jsx:172-175 | before the first fetch: no assessments, nothing selected, page 1 of 1 |
| ReviewQueue.Queue.Fetch | client/src/pages/admin/SkillCategorizationPage.jsx:180-191 | the selection is cleared; a response replaces list and pagination and selects its first entry; a failure keeps the list |
| ReviewQueue.Queue.PageChange | client/src/pages/admin/SkillCategorizationPage.jsx:195 | a page outside 1..totalPages is ignored; an accepted page is requested and clears the selection |
| ReviewQueue.Queue.CategorizeComplete | client/src/pages/admin/SkillCategorizationPage.jsx:197-207 | the processed id leaves the list; a non-empty rest selects the entry at the old index (or the last); an empty rest requests the page given by RefetchPage and clears the selection |
| ReviewQueue.CategorizeKeepsOthers | client/src/pages/admin/SkillCategorizationPage.jsx:199 | the rest is an order-preserving subsequence holding exactly the entries with another id |
| ReviewQueue.WithoutPrefix | client/src/pages/admin/SkillCategorizationPage.jsx:198-199 | removing the one entry with the id closes the gap: the entries before it keep their places |
| ReviewQueue.SelectsSuccessor | client/src/pages/admin/SkillCategorizationPage.jsx:198-201 | with distinct ids, processing an entry that has a successor selects that successor |
| ReviewQueue.SelectsNewLast | client/src/pages/admin/SkillCategorizationPage.jsx:198-201 | with distinct ids, processing the last of several entries selects the new last one |
| MainSheet.FooterRange | client/src/pages/admin/MainSheet.jsx:447 | last is at most the total; first is at most last whenever the page starts before the total; the range spans at most 20 rows; first is positive from page 1 on |
| MainSheet.FooterCountsPage | client/src/pages/admin/MainSheet.jsx:447 | on a page that holds entries the range counts 20, or the remainder on the last page |
| MainSheet.PrevRequest | client/src/pages/admin/MainSheet.jsx:450 | as the `disabled` expression intends: a request only when not loading and past page 1, for the previous page |
| MainSheet.NextRequest | client/src/pages/admin/MainSheet.jsx:451 | as intended: a request only when not loading and before the last page, for the next page |
| MainSheet.ButtonsLeaveRangeAsWritten | client/src/pages/admin/MainSheet.jsx:450-451 | as written (button component at lines 16-24), prev on page 1 requests page 0 and next on the last page requests a page past the end; the intended guards request nothing there |
| MainSheet.ButtonsStayInRange | client/src/pages/admin/MainSheet.jsx:450-451 | with the intended guards every requested page lies within 1..totalPages |
| MainSheet.FieldText | client/src/pages/admin/MainSheet.jsx:117 | a missing property reads as '' |
| MainSheet.SetField | client/src/pages/admin/MainSheet.jsx:254 | the named property takes the new value and every other property and the id are kept |
| MainSheet.UpdateEntries | client/src/pages/admin/MainSheet.jsx:254 | only entries with the matching id change |
| MainSheet.HiringNamesAfter | client/src/pages/admin/MainSheet.jsx:256-258 | a new non-empty hiring name joins the list, which is then sorted and a permutation of old plus new; otherwise the list is unchanged |
| MainSheet.ChosenInterviewer | client/src/pages/admin/MainSheet.jsx:287-297 | an id among the options stores an interviewer with that id; an unknown id stores null |
| MainSheet.FirstOption | client/src/pages/admin/MainSheet.jsx:287 | the first option with the id, or -1 when there is none |
| MainSheet.SplitName | client/src/pages/admin/MainSheet.jsx:293-294 | the label's text before the first space, and the remaining pieces joined by spaces |
| MainSheet.SplitNameRoundTrip | client/src/pages/admin/MainSheet.jsx:293-294 | the first name has no space; with a space in the label, first + ' ' + last is the label; without one the whole label is the first name and the last is empty |
| MainSheet.SplitNameOfLabel | client/src/pages/admin/MainSheet.jsx:225-294 | a label built as "first last" (first without spaces) splits back into first and last |
| MainSheet.ChosenInterviewerFromOption | client/src/pages/admin/MainSheet.jsx:223-297 | choosing an option stores the interviewer's id, first and last names and e-mail that built it |
| MainSheet.HiringNameEdit | client/src/pages/admin/MainSheet.jsx:115-117 | picking the hiring name the entry already has ('' for none) saves nothing; any other pick is saved |
| MainSheet.TechStackEdit | client/src/pages/admin/MainSheet.jsx:161-162 | picking the shown tech stack saves nothing; any other pick is saved |
| MainSheet.Sheet.constructor | client/src/pages/admin/MainSheet.jsx:196-202 | before the first fetch: no entries and no hiring names, page 1 of 1 with no items, no delete pending |
| MainSheet.Sheet.Fetch | client/src/pages/admin/MainSheet.jsx:206-214 | a response replaces entries and pagination; a failure keeps them |
| MainSheet.Sheet.CellSave | client/src/pages/admin/MainSheet.jsx:246-264 | an unknown id or a failed update reports "Failed to update key." and changes nothing; a success updates the matching entries and the hiring names as above |
| MainSheet.Sheet.InterviewerChange | client/src/pages/admin/MainSheet.jsx:285-299 | the matching entries' interviewer becomes the chosen option (or null) whatever the save's outcome; the hiring names, pending delete and pagination are kept |
| MainSheet.Sheet.DeleteRequest | client/src/pages/admin/MainSheet.jsx:301 | the delete dialog opens for the entry |
| MainSheet.Sheet.DeleteConfirm | client/src/pages/admin/MainSheet.jsx:303-312 | with no pending entry nothing happens; otherwise its id is deleted, the current page is requested again on success, and the dialog closes; entries, hiring names and pagination are kept |
| MainSheet.UpdateTwice | client/src/pages/admin/MainSheet.jsx:254-298 | the interviewer object written after the save replaces the id the save wrote |
| MainSheet.SaveTouchesOneCell | client/src/pages/admin/MainSheet.jsx:254 | other entries and other properties are unchanged by a save |
| MainSheet.UnknownIdChangesNothing | client/src/pages/admin/MainSheet.jsx:249-254 | a save for an id not on the page leaves the entries as they are |
| MainSheet.HiringNameAddedOnce | client/src/pages/admin/MainSheet.jsx:256-258 | a new hiring name occurs once, and saving it again changes nothing |
| InterviewerList.StoredAmount | client/src/pages/admin/Interviewers.jsx:55-83 | a missing amount reads as '' |
| InterviewerList.ToggleSort | client/src/pages/admin/Interviewers.jsx:119 | the clicked key; descending exactly when the key is unchanged and was ascending |
| InterviewerList.ToggleSortCycle | client/src/pages/admin/Interviewers.jsx:119 | a new column starts ascending and repeated clicks on one column alternate |
| InterviewerList.AmountMap | client/src/pages/admin/Interviewers.jsx:54-57 | the map's keys are exactly the fetched ids |
| InterviewerList.AmountMapReadsRow | client/src/pages/admin/Interviewers.jsx:54-57 | with distinct ids every row's id maps to its stored amount |
| InterviewerList.AmountMapLastWins | client/src/pages/admin/Interviewers.jsx:54-57 | when ids repeat, the last row with an id decides that id's amount |
| InterviewerList.BuildAmounts | client/src/pages/admin/Interviewers.jsx:54-57 | the reduce over the rows builds exactly that map |
| InterviewerList.SetAmount | client/src/pages/admin/Interviewers.jsx:88 | only rows with the id get the new amount |
| InterviewerList.SetStatus | client/src/pages/admin/Interviewers.jsx:103 | only rows with the id get the new status |
| InterviewerList.Find | client/src/pages/admin/Interviewers.jsx:80 | the first row with the id, or none when no row has it |
| InterviewerList.Roster.constructor | client/src/pages/admin/Interviewers.jsx:25-31 | no rows, page 1, sort by onboarding date descending, all filters empty |
| InterviewerList.Roster.Sort | client/src/pages/admin/Interviewers.jsx:117-120 | page 1 and the toggled sort; filters, rows and amounts kept |
| InterviewerList.Roster.FilterChange | client/src/pages/admin/Interviewers.jsx:112-115 | page 1 and only the named filter replaced |
| InterviewerList.Roster.Fetch | client/src/pages/admin/Interviewers.jsx:37-65 | a response replaces rows and paging and rebuilds the amounts unless preserved; a failure changes nothing |
| InterviewerList.Roster.PageChange | client/src/pages/admin/Interviewers.jsx:122-125 | the handler alone: the page becomes current and is requested with the amounts preserved |
| InterviewerList.Roster.ListEffect | client/src/pages/admin/Interviewers.jsx:69-73 | page 1 becomes current and is requested (with the amounts to be rebuilt); rows, amounts, sort and filters are kept |
| InterviewerList.Roster.PageChangeAsWritten | client/src/pages/admin/Interviewers.jsx:35-73 | as written, a change to another page re-runs the list effect, because fetchInterviewers depends on the current page (line 65): pages N then 1 are requested and page 1 is current again |
| InterviewerList.Roster.FetchAsWritten | client/src/pages/admin/Interviewers.jsx:44-73 | as written, a response replaces the rows and totals, and for a page other than the current one re-runs the list effect, so page 1 becomes current; a failure keeps rows, page and totals |
| InterviewerList.Roster.PageChangeAndLoad | client/src/pages/admin/Interviewers.jsx:122-125 | as intended: a response's page, rows and totals become current with the edited amounts kept, so a response for the requested page keeps it current; a failure leaves the requested page current and the rest as it was |
| InterviewerList.Roster.AmountChange | client/src/pages/admin/Interviewers.jsx:75-77 | only the row's edited amount changes; rows, page, totals, sort and filters are kept |
| InterviewerList.Roster.AmountSave | client/src/pages/admin/Interviewers.jsx:79-96 | nothing is sent for an unknown row or an unchanged amount; on success only that row's amount becomes the edit; on failure the edit reverts to the stored amount |
| InterviewerList.Roster.StatusChange | client/src/pages/admin/Interviewers.jsx:98-109 | on success only the matching row's status changes; on failure nothing; amounts, page, totals, sort and filters are kept either way |
| InterviewerList.SavedAmountIsSettled | client/src/pages/admin/Interviewers.jsx:81-88 | after a successful save a second blur sends nothing |
| InterviewerList.RevertedAmountIsSettled | client/src/pages/admin/Interviewers.jsx:83-91 | after a failed save the reverted edit sends nothing on the next blur |
| InterviewerList.FreshAmountsAreSettled | client/src/pages/admin/Interviewers.jsx:53-83 | right after amounts are rebuilt, blurring any row with a distinct id sends nothing |
| InterviewerList.UnloadedAmountIsSent | client/src/pages/admin/Interviewers.jsx:79-96 | a row with no amount in the map, as on a page loaded with the amounts kept (line 124), is sent on blur |
| InterviewFilter.FilteredInterviews | client/src/pages/interviewer/InterviewEvaluation.jsx:73-87 | an item is in the result exactly when it is in the list and passes search, status and date |
| InterviewFilter.FilteredIsSubsequence | client/src/pages/interviewer/InterviewEvaluation.jsx:74 | the result keeps the list's order |
| InterviewFilter.EmptyControlsKeepAll | client/src/pages/interviewer/InterviewEvaluation.jsx:76-82 | no search, no status and no date keep every item |
| InterviewFilter.MissingFieldsNeverMatch | client/src/pages/interviewer/InterviewEvaluation.jsx:76-78 | an item without name and e-mail is hidden by any non-empty search |
| InterviewFilter.UndatedHiddenByDay | client/src/pages/interviewer/InterviewEvaluation.jsx:82-83 | with a day chosen an undated item is hidden |
| InterviewFilter.SearchIgnoresCase | client/src/pages/interviewer/InterviewEvaluation.jsx:75-78 | the search ignores the term's case |
| InterviewFilter.ConjunctionIsSuccessiveFilters | client/src/pages/interviewer/InterviewEvaluation.jsx:76-85 | filtering by the conjunction equals applying the search, status and date filters one after another |

## Left out

- ApplicationForm.Submit: the form has no `noValidate`, so the browser's own checks on the `type="email"` and `type="url"` inputs (lines 70 and 132) run before `handleSubmit` and can block it. The browser also strips surrounding whitespace from those values. The model gives the registered rules only, so some data it lets through, such as "linkedin.com/in/x" without a scheme, the page blocks.
- ApplicationForm.LinkedInAnyWrapping: states the registered rule only; the browser's url check refuses text that is not an absolute URL before the rule runs.
- The slot-claim engine (public booking links, allow-lists, one booking per slot, cancellation). It lives in server code whose controllers are not part of this model; the client only calls it.
- Server requests, alerts, navigation, `FileReader`, the 300 ms debounce delay and polling (the interviewer list's effect is modelled, its delay is not). Each request's outcome is an input (`apiOk` or an `Option` response); requests a handler starts are returned as the page requested.
- Rendering, styling, icons and the local UI components.
- `toLowerCase` is modelled for ASCII letters only; other Unicode case mappings are not modelled. `\s` and `trim` use the full whitespace set of ECMAScript (the line terminators, the Unicode space separators and U+FEFF).
- `sort()` compares strings by UTF-16 code unit; the model compares by character code, which agrees on the basic multilingual plane only.
- Dates are whole day numbers: `new Date(...).toDateString()` and time zones are not modelled.
- The questionnaire's question and option texts (a static table) are not modelled; only their count (17) and ids (1 to 17) are.
- The floating-point progress percentage of the questionnaire.
- Questionnaire.GuidelinesForm.Start: sets the start time once; the mount effect lists `startTime` among its own dependencies and sets it again whenever it changes, and the ticking timer with it, which is not modelled.
- `null` and `undefined` are not distinguished: both are a missing value (`None`, a missing map key or the empty string, as each rule reads them).
- InterviewerList.Interviewer: payment amounts are text; a numeric amount from the server (and `0` being falsy) is not modelled.
- AdminBadges: the literal nav list's own prefix-freeness (no earlier path prefixes a later one) is not proved as a whole; AdminBadges.OwnPathFindsEntry states the title rule for any list with that property.
- ReviewQueue.Assessment: a missing domain list and a missing automatic domain are the empty list and string.

## Findings

| source | as written | input that shows it | evidently intended | confidence | as-written member | corrected member |
|---|---|---|---|---|---|---|
| client/src/pages/admin/MainSheet.jsx:16-24 | the page's button component takes no `disabled` prop and disables itself only through `isLoading`, which the prev/next buttons (lines 450-451) never pass, so both buttons are always clickable | currentPage = 1, totalPages = 1: prev requests page 0 and next requests page 2 | no request while loading, on page 1 for prev, or on the last page for next | not executed | MainSheet.ButtonsLeaveRangeAsWritten | MainSheet.ButtonsStayInRange |
| client/src/pages/admin/Interviewers.jsx:65 | `fetchInterviewers` lists `pagination.currentPage` among its dependencies, so a new current page recreates it and the debounced fetch, and the list effect (lines 69-73) runs again: it sets page 1 and requests it, rebuilding the amounts | currentPage = 1, totalPages = 3, click page 2: pages 2 and then 1 are requested, and page 1 is current again; a page-2 response arriving later resets to page 1 once more | the clicked page is loaded and stays current, keeping the edited amounts | not executed | InterviewerList.Roster.PageChangeAsWritten | InterviewerList.Roster.PageChangeAndLoad |
