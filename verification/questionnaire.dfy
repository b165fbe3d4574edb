/**
 * The guidelines questionnaire: seventeen questions answered one at a time
 * behind a bounded cursor, a submission refused until every answer is given,
 * the submitted payload, and the mm:ss rendering of the elapsed time.
 */
module Questionnaire {
  import opened Wrappers
  import opened Text
  import opened Seqs

  const QuestionCount: nat := 17

  /** The question ids, in order: 1 to 17. */
  const QuestionIds: seq<nat> := seq(QuestionCount, i => i + 1)

  const UnansweredMessage: string := "Please answer all questions before submitting."

  /** One submitted answer: the question's id and the option chosen for it. */
  datatype Answer = Answer(questionNumber: nat, selectedOption: string)

  datatype Submission = Submission(answers: seq<Answer>, completionTime: int)

  // ------------------------------------------------------------- the clock

  /**
   * formatTime: whole minutes and the remaining seconds, each padded to two
   * digits; the seconds field is always two digits between 00 and 59.
   */
  function FormatTime(seconds: nat): (r: string)
    ensures |r| >= 5 && r[|r| - 3] == ':'
    ensures AllDigits(r[..|r| - 3]) && AllDigits(r[|r| - 2..])
    ensures DecimalValue(r[..|r| - 3]) == seconds / 60
    ensures DecimalValue(r[|r| - 2..]) == seconds % 60 < 60
  {
    var mins, secs := seconds / 60, seconds % 60;
    var a, b := PadStart2(Decimal(mins)), PadStart2(Decimal(secs));
    PaddedDecimal(mins);
    PaddedDecimal(secs);
    TwoDigits(secs);
    var r := a + ":" + b;
    assert r[..|r| - 3] == a && r[|r| - 2..] == b;
    assert r == Clock(mins, secs);
    Clock(mins, secs)
  }

  /** The two-digit-padded minutes and seconds around ':'. */
  function Clock(mins: nat, secs: nat): string
  {
    PadStart2(Decimal(mins)) + ":" + PadStart2(Decimal(secs))
  }

  /** Reads an "m...m:ss" rendering back into seconds. */
  function ParseTime(t: string): Option<nat>
  {
    if |t| >= 3 && t[|t| - 3] == ':' && AllDigits(t[..|t| - 3]) && AllDigits(t[|t| - 2..]) then
      Some(DecimalValue(t[..|t| - 3]) * 60 + DecimalValue(t[|t| - 2..]))
    else None
  }

  /** A number below 60 pads to exactly two digits. */
  lemma TwoDigits(n: nat)
    requires n < 60
    ensures |PadStart2(Decimal(n))| == 2
  {
    if n >= 10 {
      assert Decimal(n) == Decimal(n / 10) + [DigitChar(n % 10)];
    }
  }

  /** A padded number is digits that read back as the number. */
  lemma PaddedDecimal(n: nat)
    ensures AllDigits(PadStart2(Decimal(n))) && DecimalValue(PadStart2(Decimal(n))) == n
  {
    PadStart2Value(Decimal(n));
    DecimalRoundTrip(n);
  }

  /** A digit field, ':' and a two-digit field read back as minutes * 60 + seconds. */
  lemma ParseFields(a: string, b: string, mins: nat, secs: nat)
    requires AllDigits(a) && AllDigits(b) && |b| == 2
    requires DecimalValue(a) == mins && DecimalValue(b) == secs
    ensures ParseTime(a + ":" + b) == Some(mins * 60 + secs)
  {
    var r := a + ":" + b;
    assert r[..|r| - 3] == a;
    assert r[|r| - 2..] == b;
    assert r[|r| - 3] == ':';
  }

  /** Reading a rendering back gives minutes * 60 + seconds. */
  lemma ClockRoundTrip(mins: nat, secs: nat)
    requires secs < 60
    ensures ParseTime(Clock(mins, secs)) == Some(mins * 60 + secs)
  {
    PaddedDecimal(mins);
    PaddedDecimal(secs);
    TwoDigits(secs);
    var a, b := PadStart2(Decimal(mins)), PadStart2(Decimal(secs));
    ParseFields(a, b, mins, secs);
    assert Clock(mins, secs) == a + ":" + b;
  }

  /** Under 100 minutes the rendering is exactly "mm:ss". */
  lemma FormatTimeWidth(seconds: nat)
    requires seconds < 6000
    ensures |FormatTime(seconds)| == 5
  {
    var m := seconds / 60;
    if m >= 10 {
      assert Decimal(m) == Decimal(m / 10) + [DigitChar(m % 10)];
    }
  }

  /** mins * 60 + secs gives the seconds back. */
  lemma FormatTimeRoundTrip(seconds: nat)
    ensures ParseTime(FormatTime(seconds)) == Some(seconds)
  {
    var mins, secs := seconds / 60, seconds % 60;
    assert FormatTime(seconds) == Clock(mins, secs);
    ClockRoundTrip(mins, secs);
  }

  /** Math.floor((now - (startTime || now)) / 1000): whole seconds since the start. */
  function CompletionTime(now: int, start: Option<int>): (t: int)
    ensures start.None? ==> t == 0
    ensures start.Some? ==> t * 1000 <= now - start.value < (t + 1) * 1000
    ensures start.Some? && start.value <= now ==> t >= 0
  {
    (now - (if start.Some? then start.value else now)) / 1000
  }

  // ------------------------------------------------------------ answers

  predicate IsAnswered(a: string)
  {
    a != []
  }

  /** answeredCount: how many answers are not empty. */
  function AnsweredCount(answers: seq<string>): (n: nat)
    ensures n <= |answers|
    ensures n == |answers| <==> forall i :: 0 <= i < |answers| ==> answers[i] != []
    ensures n == 0 <==> forall i :: 0 <= i < |answers| ==> answers[i] == []
  {
    var n := CountWhere(answers, IsAnswered);
    assert forall i :: 0 <= i < |answers| ==> answers[i] in answers;
    n
  }

  /** The payload: one entry per question, in order, carrying the question's id. */
  function Payload(answers: seq<string>, completionTime: int): (r: Submission)
    requires |answers| == QuestionCount
    ensures |r.answers| == QuestionCount && r.completionTime == completionTime
    ensures forall i :: 0 <= i < QuestionCount ==>
      r.answers[i].questionNumber == i + 1 && r.answers[i].selectedOption == answers[i]
  {
    Submission(seq(QuestionCount, i requires 0 <= i < QuestionCount => Answer(QuestionIds[i], answers[i])), completionTime)
  }

  /** Giving an unanswered question an option counts one more answer; re-answering counts none. */
  lemma {:induction false} SelectCount(answers: seq<string>, i: nat, option: string)
    requires i < |answers| && option != []
    ensures AnsweredCount(answers[i := option]) == AnsweredCount(answers) + (if answers[i] == [] then 1 else 0)
    decreases |answers|
  {
    var b := answers[i := option];
    if i > 0 {
      assert b[1..] == answers[1..][i - 1 := option];
      SelectCount(answers[1..], i - 1, option);
    } else {
      assert b[1..] == answers[1..];
    }
  }

  /** The form's state: the answers buffer, the cursor and the start time. */
  class GuidelinesForm {
    const answers: array<string>
    var current: nat
    var startTime: Option<int>

    ghost predicate Valid()
      reads this
    {
      answers.Length == QuestionCount && current < QuestionCount
    }

    /** A fresh form: every answer empty, at the first question, not started. */
    constructor()
      ensures Valid() && fresh(answers)
      ensures current == 0 && startTime.None?
      ensures forall i :: 0 <= i < answers.Length ==> answers[i] == []
    {
      answers := new string[QuestionCount](_ => "");
      current := 0;
      startTime := None;
    }

    /** The mount effect records when answering began. */
    method Start(now: int)
      modifies this
      ensures startTime == Some(now) && current == old(current)
    {
      startTime := Some(now);
    }

    /** handleOptionSelect: only the current question's answer changes. */
    method SelectOption(option: string)
      requires Valid()
      modifies answers
      ensures Valid()
      ensures answers[..] == old(answers[..])[current := option]
      ensures NextEnabled() <==> option != []
    {
      answers[current] := option;
    }

    /** handlePrevious: one question back, never before the first. */
    method Previous()
      requires Valid()
      modifies this
      ensures Valid() && startTime == old(startTime)
      ensures current == if old(current) > 0 then old(current) - 1 else old(current)
    {
      if current > 0 {
        current := current - 1;
      }
    }

    /** handleNext: one question on, never past the last. */
    method Next()
      requires Valid()
      modifies this
      ensures Valid() && startTime == old(startTime)
      ensures current == if old(current) < QuestionCount - 1 then old(current) + 1 else old(current)
    {
      if current < QuestionCount - 1 {
        current := current + 1;
      }
    }

    /** A question navigator button jumps straight to its question. */
    method GoTo(index: nat)
      requires Valid() && index < QuestionCount
      modifies this
      ensures Valid() && current == index && startTime == old(startTime)
    {
      current := index;
    }

    /** The Next button is enabled only while the current question has an answer. */
    predicate NextEnabled()
      requires Valid()
      reads this, answers
    {
      answers[current] != []
    }

    /** The sidebar submit button: answeredCount equals the number of questions. */
    predicate SidebarSubmitEnabled(isSubmitting: bool)
      reads this, answers
    {
      AnsweredCount(answers[..]) == answers.Length && !isSubmitting
    }

    /** The last question's submit button: every answer is non-empty. */
    predicate FinishSubmitEnabled(isSubmitting: bool)
      reads this, answers
    {
      (forall i :: 0 <= i < answers.Length ==> answers[i] != []) && !isSubmitting
    }

    /**
     * handleSubmit: refused with a message while some answer is empty;
     * otherwise the payload of every answer with the whole seconds elapsed.
     */
    method Submit(now: int) returns (r: Result<Submission>)
      requires Valid()
      ensures r.Err? <==> exists i :: 0 <= i < answers.Length && answers[i] == []
      ensures r.Err? ==> r.message == UnansweredMessage
      ensures r.Ok? ==> r.value == Payload(answers[..], CompletionTime(now, startTime))
    {
      var i := 0;
      while i < answers.Length
        invariant 0 <= i <= answers.Length
        invariant forall j :: 0 <= j < i ==> answers[j] != []
      {
        if answers[i] == [] {
          return Err(UnansweredMessage);
        }
        i := i + 1;
      }
      r := Ok(Payload(answers[..], CompletionTime(now, startTime)));
    }
  }

  /** The two submit buttons are enabled together: a full count means no empty answer. */
  lemma SubmitButtonsAgree(form: GuidelinesForm, isSubmitting: bool)
    ensures form.SidebarSubmitEnabled(isSubmitting) <==> form.FinishSubmitEnabled(isSubmitting)
  {
    var a := form.answers[..];
    assert forall i :: 0 <= i < form.answers.Length ==> a[i] == form.answers[i];
  }

  /** An enabled submit button means the submission is accepted. */
  lemma EnabledSubmitIsAccepted(form: GuidelinesForm)
    requires form.SidebarSubmitEnabled(false)
    ensures forall i :: 0 <= i < form.answers.Length ==> form.answers[i] != []
  {
    SubmitButtonsAgree(form, false);
  }
}
