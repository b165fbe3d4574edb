/**
 * The interviewer application form's field rules: five required fields, the
 * e-mail and phone patterns, the LinkedIn address check, and the defaults of
 * the two unchecked fields and the checkbox. A required rule is checked
 * before the field's pattern, so an empty field reports "required".
 */
module ApplicationForm {
  import opened Wrappers
  import opened Text

  datatype Application = Application(
    fullName: string, email: string, phoneNumber: string, whatsappNumber: string,
    linkedinProfileUrl: string, sourcingChannel: string, additionalComments: string,
    interestedInJoining: bool)

  const FullNameRequired: string := "Full name is required"
  const EmailRequired: string := "Email is required"
  const EmailInvalid: string := "Please enter a valid email address"
  const PhoneRequired: string := "Phone number is required"
  const PhoneInvalid: string := "Please enter a valid phone number"
  const LinkedInRequired: string := "LinkedIn profile URL is required"
  const LinkedInInvalid: string := "Please enter a valid LinkedIn profile URL"
  const SourcingRequired: string := "Please select an option"
  const LinkedInMarker: string := "linkedin.com/"

  /** The untouched form: every text empty, the sourcing placeholder selected, the box checked. */
  const DefaultApplication: Application := Application("", "", "", "", "", "", "", true)

  // ------------------------------------------------------------- e-mail

  /** [^\s@]: neither whitespace nor '@'. */
  predicate PlainChar(c: char)
  {
    !IsSpace(c) && c != '@'
  }

  predicate Plain(s: string)
  {
    forall k :: 0 <= k < |s| ==> PlainChar(s[k])
  }

  /**
   * ^[^\s@]+@[^\s@]+\.[^\s@]+$ read literally: s is a plain run, '@' at p, a
   * plain run, '.' at d, and a plain run to the end.
   */
  predicate EmailPatternAt(s: string, p: int, d: int)
  {
    0 < p && p + 1 < d && d + 1 < |s| && s[p] == '@' && s[d] == '.' &&
    Plain(s[..p]) && Plain(s[p + 1..d]) && Plain(s[d + 1..])
  }

  predicate EmailPattern(s: string)
  {
    exists p, d :: 0 <= p < d < |s| && EmailPatternAt(s, p, d)
  }

  /** The number of '@' characters. */
  function AtCount(s: string): nat
  {
    CountIn(s, {'@'})
  }

  /**
   * The same rule by its effect: no whitespace, exactly one '@' with
   * something before it, and a '.' after it with a character on each side.
   */
  predicate EmailShape(s: string)
  {
    NoSpace(s) && AtCount(s) == 1 &&
    exists p, d :: 0 < p && p + 1 < d < |s| - 1 && s[p] == '@' && s[d] == '.'
  }

  /** A string with no '@' counts none; splitting a string adds the counts of its parts. */
  lemma {:induction false} CountInAppend(a: string, b: string, seps: set<char>)
    ensures CountIn(a + b, seps) == CountIn(a, seps) + CountIn(b, seps)
    decreases |a|
  {
    if a == [] {
      assert a + b == b;
    } else {
      assert (a + b)[1..] == a[1..] + b;
      CountInAppend(a[1..], b, seps);
    }
  }

  lemma {:induction false} CountInNone(s: string, seps: set<char>)
    requires forall k :: 0 <= k < |s| ==> s[k] !in seps
    ensures CountIn(s, seps) == 0
    decreases |s|
  {
    if s != [] {
      CountInNone(s[1..], seps);
    }
  }

  lemma {:induction false} CountInPositive(s: string, seps: set<char>, k: nat)
    requires k < |s| && s[k] in seps
    ensures CountIn(s, seps) >= 1
    decreases |s|
  {
    if k > 0 {
      CountInPositive(s[1..], seps, k - 1);
    }
  }

  /** A string cut around '@' and '.' into plain runs has no whitespace and a single '@'. */
  lemma PatternHasShape(s: string, p: int, d: int)
    requires 0 <= p < d < |s| && EmailPatternAt(s, p, d)
    ensures EmailShape(s)
  {
    var a, mid, b := s[..p], s[p + 1..d], s[d + 1..];
    forall k | 0 <= k < |s|
      ensures !IsSpace(s[k])
    {
      if k < p {
        assert s[k] == a[k];
      } else if p < k < d {
        assert s[k] == mid[k - p - 1];
      } else if d < k {
        assert s[k] == b[k - d - 1];
      }
    }
    assert s == a + ([s[p]] + mid + [s[d]]) + b;
    CountInAppend(a + ([s[p]] + mid + [s[d]]), b, {'@'});
    CountInAppend(a, [s[p]] + mid + [s[d]], {'@'});
    CountInAppend([s[p]] + mid, [s[d]], {'@'});
    CountInAppend([s[p]], mid, {'@'});
    CountInNone(a, {'@'});
    CountInNone(mid, {'@'});
    CountInNone(b, {'@'});
  }

  /** A string with a single '@' at p has no '@' elsewhere. */
  lemma OnlyAt(s: string, p: nat)
    requires p < |s| && s[p] == '@' && AtCount(s) == 1
    ensures forall k :: 0 <= k < |s| && k != p ==> s[k] != '@'
  {
    forall k | 0 <= k < |s| && k != p
      ensures s[k] != '@'
    {
      if s[k] == '@' {
        var lo, hi := if k < p then k else p, if k < p then p else k;
        assert s == s[..lo + 1] + s[lo + 1..];
        CountInAppend(s[..lo + 1], s[lo + 1..], {'@'});
        CountInPositive(s[..lo + 1], {'@'}, lo);
        CountInPositive(s[lo + 1..], {'@'}, hi - lo - 1);
      }
    }
  }

  /** The pattern accepts exactly the e-mails of that shape. */
  lemma EmailPatternShape(s: string)
    ensures EmailPattern(s) <==> EmailShape(s)
  {
    if EmailPattern(s) {
      var p, d :| 0 <= p < d < |s| && EmailPatternAt(s, p, d);
      PatternHasShape(s, p, d);
    }
    if EmailShape(s) {
      var p, d :| 0 < p && p + 1 < d < |s| - 1 && s[p] == '@' && s[d] == '.';
      OnlyAt(s, p);
      assert EmailPatternAt(s, p, d);
    }
  }

  // --------------------------------------------------------- other fields

  /** ^\d{10,15}$ : ten to fifteen ASCII digits and nothing else. */
  predicate PhonePattern(s: string)
  {
    10 <= |s| <= 15 && AllDigits(s)
  }

  /** value.includes('linkedin.com/') */
  predicate LinkedInUrl(s: string)
  {
    Contains(s, LinkedInMarker)
  }

  /** The registered fields that carry a rule, by their form name (fullName, email, phoneNumber, linkedinProfileUrl, sourcingChannel). */
  datatype Field = FullName | Email | PhoneNumber | LinkedInProfileUrl | SourcingChannel

  /** The message of one field: required first, then the field's own check. */
  function FieldError(value: string, required: string, valid: bool, invalid: string): (r: Option<string>)
    ensures value == [] ==> r == Some(required)
    ensures value != [] && valid ==> r.None?
    ensures value != [] && !valid ==> r == Some(invalid)
  {
    if value == [] then Some(required) else if !valid then Some(invalid) else None
  }

  function Put(m: map<Field, string>, key: Field, e: Option<string>): map<Field, string>
  {
    if e.Some? then m[key := e.value] else m
  }

  /** The validation messages of a submitted form, keyed by field name. */
  function Errors(a: Application): (r: map<Field, string>)
    ensures FullName in r <==> a.fullName == []
    ensures Email in r <==> !EmailPattern(a.email)
    ensures PhoneNumber in r <==> !PhonePattern(a.phoneNumber)
    ensures LinkedInProfileUrl in r <==> !LinkedInUrl(a.linkedinProfileUrl)
    ensures SourcingChannel in r <==> a.sourcingChannel == []
    ensures FullName in r ==> r[FullName] == FullNameRequired
    ensures SourcingChannel in r ==> r[SourcingChannel] == SourcingRequired
    ensures Email in r ==> r[Email] == (if a.email == [] then EmailRequired else EmailInvalid)
    ensures PhoneNumber in r ==> r[PhoneNumber] == (if a.phoneNumber == [] then PhoneRequired else PhoneInvalid)
    ensures LinkedInProfileUrl in r ==>
      r[LinkedInProfileUrl] == (if a.linkedinProfileUrl == [] then LinkedInRequired else LinkedInInvalid)
  {
    var m0: map<Field, string> := map[];
    var m1 := Put(m0, FullName, FieldError(a.fullName, FullNameRequired, true, ""));
    var m2 := Put(m1, Email, FieldError(a.email, EmailRequired, EmailPattern(a.email), EmailInvalid));
    var m3 := Put(m2, PhoneNumber, FieldError(a.phoneNumber, PhoneRequired, PhonePattern(a.phoneNumber), PhoneInvalid));
    var m4 := Put(m3, LinkedInProfileUrl,
      FieldError(a.linkedinProfileUrl, LinkedInRequired, LinkedInUrl(a.linkedinProfileUrl), LinkedInInvalid));
    Put(m4, SourcingChannel, FieldError(a.sourcingChannel, SourcingRequired, true, ""))
  }

  /** What pressing submit does: the data reaches the submit handler, or the messages are shown. */
  datatype Outcome = Submitted(data: Application) | Rejected(errors: map<Field, string>)

  /** handleSubmit: the form data goes to the submit handler only when no field has a message. */
  function Submit(a: Application): (r: Outcome)
    ensures r.Submitted? <==> (a.fullName != [] && EmailPattern(a.email) && PhonePattern(a.phoneNumber) &&
      LinkedInUrl(a.linkedinProfileUrl) && a.sourcingChannel != [])
    ensures r.Submitted? ==> r.data == a
    ensures r.Rejected? ==> r.errors == Errors(a) && r.errors != map[]
  {
    var errs := Errors(a);
    if errs == map[] then Submitted(a) else Rejected(errs)
  }

  // ----------------------------------------------------------- properties

  /** A non-empty phone number shorter than ten, longer than fifteen or holding a non-digit draws the invalid-number message. */
  lemma PhoneRuleRejects(a: Application, k: nat)
    requires a.phoneNumber != []
    requires |a.phoneNumber| < 10 || |a.phoneNumber| > 15 || (k < |a.phoneNumber| && !IsDigit(a.phoneNumber[k]))
    ensures PhoneNumber in Errors(a) && Errors(a)[PhoneNumber] == PhoneInvalid
  {
  }

  /** Ten to fifteen digits draw no phone message. */
  lemma PhoneRuleAccepts(a: Application)
    requires 10 <= |a.phoneNumber| <= 15
    requires forall k :: 0 <= k < |a.phoneNumber| ==> IsDigit(a.phoneNumber[k])
    ensures PhoneNumber !in Errors(a)
  {
  }

  /** The untouched form reports "required" on each required field and on nothing else. */
  lemma DefaultFormErrors()
    ensures Errors(DefaultApplication) == map[
      FullName := FullNameRequired, Email := EmailRequired, PhoneNumber := PhoneRequired,
      LinkedInProfileUrl := LinkedInRequired, SourcingChannel := SourcingRequired]
    ensures DefaultApplication.interestedInJoining
  {
  }

  /** The optional fields never block a submission and are passed on as typed. */
  lemma OptionalFieldsFree(a: Application, whatsapp: string, comments: string, interested: bool)
    ensures var b := a.(whatsappNumber := whatsapp, additionalComments := comments, interestedInJoining := interested);
      Errors(b) == Errors(a) && (Submit(b).Submitted? <==> Submit(a).Submitted?)
  {
  }

  /** Any text around "linkedin.com/" is accepted as a LinkedIn address. */
  lemma LinkedInAnyWrapping(before: string, after: string)
    ensures LinkedInUrl(before + LinkedInMarker + after)
  {
    ContainsInside(before, LinkedInMarker, after);
  }

  /** An address whose local part, domain and extension are plain runs is accepted. */
  lemma EmailFromParts(local: string, domain: string, ext: string)
    requires local != [] && domain != [] && ext != []
    requires Plain(local) && Plain(domain) && Plain(ext)
    ensures EmailPattern(local + "@" + domain + "." + ext)
  {
    var s := local + "@" + domain + "." + ext;
    var p, d := |local|, |local| + 1 + |domain|;
    assert s[..p] == local;
    assert s[p + 1..d] == domain;
    assert s[d + 1..] == ext;
    assert EmailPatternAt(s, p, d);
  }
}
