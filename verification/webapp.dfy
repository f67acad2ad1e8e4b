/** The `/generate` handler of webapp/app.py: the form is read and stripped,
    checked in a fixed order with the first failure answered by a 400 reply,
    and an accepted form starts a background job. */
module WebApp {
  import opened Wrappers
  import opened Text
  import opened IntParse
  import opened Email
  import opened Precedence

  /** The posted form; a field the browser did not send is None. */
  datatype Form = Form(singer: Option<string>, videos: Option<string>, duration: Option<string>, email: Option<string>)

  /** `(request.form.get(key) or "").strip()`: a missing field reads as empty. */
  function Field(f: Option<string>): (r: string)
    ensures Trimmed(r)
    ensures f.None? ==> r == []
    ensures f.Some? ==> r == Strip(f.value)
  {
    match f
    case None =>
      assert AllSpace("");
      Strip("")
    case Some(x) => Strip(x)
  }

  /** The reasons a form is refused. */
  datatype Rejection =
    | MissingSinger
    | BadVideos
    | BadDuration
    | BadEmail
    | TooManyVideos
    | DurationTooLong

  /** The `error` text of the 400 reply for each reason. */
  function RejectionText(e: Rejection): string {
    match e
    case MissingSinger => "Singer name is required."
    case BadVideos => "Number of videos must be an integer > 10."
    case BadDuration => "Duration must be an integer > 20 seconds."
    case BadEmail => "Please enter a valid email address."
    case TooManyVideos => "Max 50 videos allowed on this demo host."
    case DurationTooLong => "Max duration per clip is 60 seconds on this demo host."
  }

  /** What an accepted form hands to the background job. */
  datatype WebJob = WebJob(singer: string, videos: int, duration: int, email: string)

  /** The order in which `generate` runs its checks. */
  const CheckOrder: seq<Rejection> :=
    [MissingSinger, BadVideos, BadDuration, BadEmail, TooManyVideos, DurationTooLong]

  /** The form as the checks see it: the four stripped fields, with the two
      numbers passed through `valid_int`. */
  datatype Reading = Reading(singer: string, videos: Option<int>, duration: Option<int>, email: string)

  /** Lines 48-51 of `generate`: every field is read and stripped before any
      check runs; `valid_int` is `int` with None for its exception, which is
      `ParseInt` itself. */
  function Read(form: Form): Reading {
    Reading(Field(form.singer), ParseInt(Field(form.videos)), ParseInt(Field(form.duration)), Field(form.email))
  }

  /** Each present field with `a` before it and `b` after it. */
  function PadForm(form: Form, a: string, b: string): Form {
    Form(PadField(form.singer, a, b), PadField(form.videos, a, b),
         PadField(form.duration, a, b), PadField(form.email, a, b))
  }

  function PadField(f: Option<string>, a: string, b: string): Option<string> {
    match f
    case None => None
    case Some(x) => Some(a + x + b)
  }

  /** Whitespace around the submitted fields changes neither the reading nor
      the verdict. */
  lemma ReadIgnoresPadding(form: Form, a: string, b: string)
    requires AllSpace(a) && AllSpace(b)
    ensures Read(PadForm(form, a, b)) == Read(form)
    ensures Validate(PadForm(form, a, b)) == Validate(form)
  {
    FieldIgnoresPadding(form.singer, a, b);
    FieldIgnoresPadding(form.videos, a, b);
    FieldIgnoresPadding(form.duration, a, b);
    FieldIgnoresPadding(form.email, a, b);
  }

  lemma FieldIgnoresPadding(f: Option<string>, a: string, b: string)
    requires AllSpace(a) && AllSpace(b)
    ensures Field(PadField(f, a, b)) == Field(f)
  {
    if f.Some? {
      StripPadded(a, f.value, b);
    }
  }

  /** The condition each check rejects, judged on its own. */
  predicate Fails(r: Reading, e: Rejection) {
    match e
    case MissingSinger => r.singer == []
    case BadVideos => r.videos.None? || r.videos.value <= 10
    case BadDuration => r.duration.None? || r.duration.value <= 20
    case BadEmail => !MatchesEmailRe(r.email)
    case TooManyVideos => r.videos.Some? && r.videos.value > 50
    case DurationTooLong => r.duration.Some? && r.duration.value > 60
  }

  /** Lines 53-66 of `generate`: the first check that fails, if any. */
  function FirstRejection(r: Reading): (e: Option<Rejection>)
    ensures e.None? ==> r.singer != [] && MatchesEmailRe(r.email)
    ensures e.None? ==> r.videos.Some? && 10 < r.videos.value <= 50
    ensures e.None? ==> r.duration.Some? && 20 < r.duration.value <= 60
  {
    if r.singer == [] then Some(MissingSinger)
    else if r.videos.None? || r.videos.value <= 10 then Some(BadVideos)
    else if r.duration.None? || r.duration.value <= 20 then Some(BadDuration)
    else if !MatchesEmailRe(r.email) then Some(BadEmail)
    else if r.videos.value > 50 then Some(TooManyVideos)
    else if r.duration.value > 60 then Some(DurationTooLong)
    else None
  }

  /** The form's verdict: the first rejection, or the job with the stripped
      singer and email and the two parsed numbers. */
  function Validate(form: Form): (r: Result<WebJob, Rejection>)
    ensures r.Success? ==> r.value.singer != [] && Trimmed(r.value.singer)
    ensures r.Success? ==> 11 <= r.value.videos <= 50 && 21 <= r.value.duration <= 60
    ensures r.Success? ==> IsEmail(r.value.email)
  {
    var rd := Read(form);
    match FirstRejection(rd)
    case Some(e) => Failure(e)
    case None =>
      MatchesEmailReTrimmed(rd.email);
      IsEmailIffRegex(rd.email);
      Success(WebJob(rd.singer, rd.videos.value, rd.duration.value, rd.email))
  }

  /** The check at position `k` of the order is reported exactly when it
      fails and every earlier one passes. */
  lemma ValidateFirstFailureWins(form: Form, k: nat)
    requires k < |CheckOrder|
    ensures Validate(form) == Failure(CheckOrder[k]) <==>
      Fails(Read(form), CheckOrder[k]) && forall j :: 0 <= j < k ==> !Fails(Read(form), CheckOrder[j])
  {
    FirstRejectionWins(Read(form), k);
  }

  lemma FirstRejectionWins(r: Reading, k: nat)
    requires k < |CheckOrder|
    ensures FirstRejection(r) == Some(CheckOrder[k]) <==>
      Fails(r, CheckOrder[k]) && forall j :: 0 <= j < k ==> !Fails(r, CheckOrder[j])
  {
    var t := Outcomes(CheckOrder, c => Fails(r, c));
    FirstRejectionIsChain(r);
    assert Distinct(CheckOrder);
    FirstOfSixWins(CheckOrder, t, k);
  }

  /** `FirstRejection` is the first failing check in `CheckOrder`. */
  lemma FirstRejectionIsChain(r: Reading)
    ensures FirstRejection(r) == FirstOfSix(CheckOrder, Outcomes(CheckOrder, c => Fails(r, c)))
  {
  }

  /** A form is accepted exactly when the stripped singer is not blank, the
      count is an integer from 11 to 50, the duration an integer from 21 to
      60 and the email has the required shape; the job carries those values. */
  lemma ValidateAccepts(form: Form)
    ensures Validate(form).Success? <==>
      && Field(form.singer) != []
      && ParseInt(Field(form.videos)).Some? && 11 <= ParseInt(Field(form.videos)).value <= 50
      && ParseInt(Field(form.duration)).Some? && 21 <= ParseInt(Field(form.duration)).value <= 60
      && IsEmail(Field(form.email))
    ensures Validate(form).Success? ==>
      Validate(form).value == WebJob(Field(form.singer), ParseInt(Field(form.videos)).value,
                                     ParseInt(Field(form.duration)).value, Field(form.email))
  {
    var rd := Read(form);
    EmailCheckIsShape(rd.email);
    AcceptedReading(rd);
    if FirstRejection(rd).None? {
      ValidateBuildsJob(form);
    } else {
      ValidateReportsFirstRejection(form);
    }
  }

  /** No check fails exactly when every field is in range. */
  lemma AcceptedReading(r: Reading)
    ensures FirstRejection(r).None? <==>
      && r.singer != [] && MatchesEmailRe(r.email)
      && r.videos.Some? && 11 <= r.videos.value <= 50
      && r.duration.Some? && 21 <= r.duration.value <= 60
  {
  }

  /** On a stripped field the email pattern and the address shape agree. */
  lemma EmailCheckIsShape(s: string)
    requires Trimmed(s)
    ensures MatchesEmailRe(s) <==> IsEmail(s)
  {
    MatchesEmailReTrimmed(s);
    IsEmailIffRegex(s);
  }

  lemma ValidateReportsFirstRejection(form: Form)
    requires FirstRejection(Read(form)).Some?
    ensures Validate(form) == Failure(FirstRejection(Read(form)).value)
  {
  }

  lemma ValidateBuildsJob(form: Form)
    requires FirstRejection(Read(form)).None?
    ensures Validate(form) == Success(WebJob(Field(form.singer), ParseInt(Field(form.videos)).value,
                                             ParseInt(Field(form.duration)).value, Field(form.email)))
  {
  }

  /** The caps come after the email check: a hundred videos with a bad email
      is answered with the email error. */
  lemma EmailBeforeCap()
    ensures Validate(Form(Some("Test Artist"), Some("100"), Some("30"), Some("bad"))) == Failure(BadEmail)
  {
    var form := Form(Some("Test Artist"), Some("100"), Some("30"), Some("bad"));
    ExampleFields();
    NotAnEmail();
    RejectedAtEmail(form);
  }

  /** A form that passes the first three checks and fails the email check
      is refused for its email, whatever its count and duration. */
  lemma RejectedAtEmail(form: Form)
    requires Field(form.singer) != []
    requires ParseInt(Field(form.videos)).Some? && ParseInt(Field(form.videos)).value > 10
    requires ParseInt(Field(form.duration)).Some? && ParseInt(Field(form.duration)).value > 20
    requires !MatchesEmailRe(Field(form.email))
    ensures Validate(form) == Failure(BadEmail)
  {
    var rd := Read(form);
    EmailRejection(rd);
    ValidateReportsFirstRejection(form);
  }

  lemma EmailRejection(r: Reading)
    requires r.singer != [] && !MatchesEmailRe(r.email)
    requires r.videos.Some? && r.videos.value > 10 && r.duration.Some? && r.duration.value > 20
    ensures FirstRejection(r) == Some(BadEmail)
  {
  }

  // A literal fact for the example lemmas, split out only to keep their proofs small.
  lemma ExampleFields()
    ensures Field(Some("Test Artist")) == "Test Artist"
    ensures ParseInt(Field(Some("100"))) == Some(100)
    ensures ParseInt(Field(Some("30"))) == Some(30)
    ensures Field(Some("bad")) == "bad"
  {
    SingerField();
    ThreeDigitText(100, "100");
    TwoDigitText(30, "30");
    BadField();
  }

  // A literal fact for the example lemmas, split out only to keep their proofs small.
  lemma SingerField()
    ensures Field(Some("Test Artist")) == "Test Artist"
  {
    assert Trimmed("Test Artist");
  }

  // A literal fact for the example lemmas, split out only to keep their proofs small.
  lemma BadField()
    ensures Field(Some("bad")) == "bad"
  {
    assert Trimmed("bad");
  }

  // A literal fact for the example lemmas, split out only to keep their proofs small.
  lemma NotAnEmail()
    ensures !MatchesEmailRe("bad")
  {
    assert Trimmed("bad");
    MatchesEmailReTrimmed("bad");
    IsEmailIffRegex("bad");
    if IsEmail("bad") {
      EmailShape("bad");
      assert false;
    }
  }

  /** The JSON reply: HTTP status, the `ok` flag, which key carries the
      text (`error` or `message`), the text, and the job started, if any. */
  datatype Reply = Reply(status: int, ok: bool, key: string, text: string, started: Option<WebJob>)

  const StartedText: string := "Job started. You will receive a ZIP on email when ready."

  /** `generate`: a refused form gets status 400 with its error text and
      starts nothing; an accepted one gets status 200 and starts its job. */
  function Generate(form: Form): (r: Reply)
    ensures r.status == 400 <==> !r.ok
    ensures r.ok <==> r.started.Some?
    ensures r.ok <==> Validate(form).Success?
    ensures !r.ok ==> r.key == "error" && r.text == RejectionText(Validate(form).error)
    ensures r.ok ==> r.status == 200 && r.key == "message" && r.text == StartedText
    ensures r.ok ==> r.started.value == Validate(form).value
  {
    match Validate(form)
    case Failure(e) => Reply(400, false, "error", RejectionText(e), None)
    case Success(job) => Reply(200, true, "message", StartedText, Some(job))
  }
}
