/** The new-post screen: the activity types it offers, the two required-field
    checks, the record it inserts into the `posts` table, and how its `error`
    and `loading` state move while a post is submitted. */
module NewPost {
  import opened Wrappers
  import opened Decimal
  import Interval

  /** The activity types offered as buttons, in display order. */
  const ActivityTypes: seq<string> :=
    ["Running", "Walking", "Cycling", "Swimming", "Weight Training", "Yoga", "HIIT", "Other"]

  const SelectActivityMessage := "Please select an activity type"
  const EnterDurationMessage := "Please enter the duration"
  const NotAuthenticatedMessage := "Not authenticated"

  /** The four input fields of the screen when Post is pressed. The duration
      field takes minutes from a number pad, so it holds digits only. */
  datatype Form = Form(content: string, activityType: string, duration: DigitString, distance: string)

  /** A submission that passed the required-field checks: the minutes the
      duration field denotes, and the distance text when one was entered
      (its floating-point reading is not modelled). */
  datatype Draft = Draft(content: string, activityType: string, minutes: nat, distance: Option<string>)

  /** The record handed to the insert into `posts`. */
  datatype PostRow = PostRow(userId: string, content: string, activityType: string,
                             duration: string, distance: Option<string>)

  /** The screen's `error` text and `loading` flag. */
  datatype Status = Status(error: string, loading: bool)

  /** What one press of Post does: the status shown while the remote calls
      are pending (none if they were never made), the row sent to the insert
      (none if no insert was attempted), whether the screen navigated back,
      and the status once the handler has returned. */
  datatype Submission = Submission(inFlight: Option<Status>, sent: Option<PostRow>,
                                   wentBack: bool, final: Status)

  /** Every offered activity type is a non-empty, distinct label. */
  lemma ActivityTypesWellFormed()
    ensures |ActivityTypes| == 8
    ensures forall i | 0 <= i < |ActivityTypes| :: ActivityTypes[i] != []
    ensures forall i, j | 0 <= i < j < |ActivityTypes| :: ActivityTypes[i] != ActivityTypes[j]
  {
  }

  /** The required-field checks: the activity type first, then the duration;
      a form that passes both becomes a draft carrying the minutes the
      duration text denotes and the distance text if any was entered. */
  function Validate(f: Form): (r: Result<Draft, string>)
    ensures f.activityType == [] ==> r == Failure(SelectActivityMessage)
    ensures f.activityType != [] && f.duration == [] ==> r == Failure(EnterDurationMessage)
    ensures r.Success? <==> f.activityType != [] && f.duration != []
    ensures r.Success? ==>
      r.value.content == f.content && r.value.activityType == f.activityType &&
      r.value.minutes == Value(f.duration) &&
      (r.value.distance == None <==> f.distance == []) &&
      (r.value.distance != None ==> r.value.distance.value == f.distance)
  {
    if f.activityType == [] then Failure(SelectActivityMessage)
    else if f.duration == [] then Failure(EnterDurationMessage)
    else
      Success(Draft(f.content, f.activityType, Value(f.duration),
                    if f.distance == [] then None else Some(f.distance)))
  }

  /** The row inserted for a signed-in user: its duration is an interval text
      that reads back as the draft's minutes, in `HH:MM:00` form (eight
      characters) whenever the duration is under 100 hours. */
  function RowFor(userId: string, d: Draft): (row: PostRow)
    ensures row.userId == userId && row.content == d.content
    ensures row.activityType == d.activityType && row.distance == d.distance
    ensures row.duration == Interval.Encode(d.minutes)
    ensures Interval.ReadMinutes(row.duration) == Some(d.minutes)
    ensures |row.duration| == 8 <==> d.minutes < 6000
  {
    Interval.ReadEncode(d.minutes);
    Interval.EncodeLength(d.minutes);
    PostRow(userId, d.content, d.activityType, Interval.Encode(d.minutes), d.distance)
  }

  /** One press of Post, given the signed-in user (if any) and the insert's
      error message (if it failed). A form that fails a check only sets the
      error and makes no remote call. Otherwise the error is cleared and
      loading set before the remote calls, the insert is attempted only for
      a signed-in user, the error ends up as the failure's message (or empty
      on success), and loading is false when the handler returns. */
  function Submit(f: Form, before: Status, user: Option<string>, insertError: Option<string>): (s: Submission)
    ensures Validate(f).Failure? ==>
      s == Submission(None, None, false, Status(Validate(f).error, before.loading))
    ensures Validate(f).Success? ==> s.inFlight == Some(Status("", true)) && !s.final.loading
    ensures s.sent.Some? <==> Validate(f).Success? && user.Some?
    ensures s.sent.Some? ==> s.sent.value == RowFor(user.value, Validate(f).value)
    ensures s.wentBack <==> s.sent.Some? && insertError.None?
    ensures Validate(f).Success? && user.None? ==> s.final.error == NotAuthenticatedMessage
    ensures s.sent.Some? ==> s.final.error == (if insertError.Some? then insertError.value else "")
  {
    match Validate(f)
    case Failure(message) => Submission(None, None, false, Status(message, before.loading))
    case Success(d) =>
      var pending := Status("", true);
      match user
      case None => Submission(Some(pending), None, false, Status(NotAuthenticatedMessage, false))
      case Some(id) =>
        var row := RowFor(id, d);
        match insertError
        case Some(message) => Submission(Some(pending), Some(row), false, Status(message, false))
        case None => Submission(Some(pending), Some(row), true, Status("", false))
  }

  /** An offered activity type always passes the activity-type check: the
      form is then either accepted or stopped by the duration check. */
  lemma SelectedActivityPasses(f: Form)
    requires f.activityType in ActivityTypes
    ensures Validate(f) != Failure(SelectActivityMessage)
    ensures Validate(f).Success? || Validate(f) == Failure(EnterDurationMessage)
  {
    ActivityTypesWellFormed();
  }

  /** A submitted row always records the duration the user typed: reading its
      interval text back gives the number the duration field denotes. */
  lemma SentDurationReadsBack(f: Form, before: Status, user: Option<string>, insertError: Option<string>)
    requires Submit(f, before, user, insertError).sent.Some?
    ensures f.duration != []
    ensures Interval.ReadMinutes(Submit(f, before, user, insertError).sent.value.duration) == Some(Value(f.duration))
  {
  }

  /** The screen's state: the four inputs and the `loading`/`error` flags. */
  class NewPostScreen {
    var content: string
    var activityType: string
    var duration: DigitString
    var distance: string
    var loading: bool
    var error: string

    /** The activity type is either unselected or one of the offered ones. */
    ghost predicate Valid()
      reads this
    {
      activityType == [] || activityType in ActivityTypes
    }

    function FormValue(): (f: Form)
      reads this
    {
      Form(content, activityType, duration, distance)
    }

    function StatusValue(): (s: Status)
      reads this
    {
      Status(error, loading)
    }

    constructor ()
      ensures Valid()
      ensures FormValue() == Form("", "", "", "") && StatusValue() == Status("", false)
    {
      content, activityType, duration, distance := "", "", "", "";
      loading, error := false, "";
    }

    /** Pressing one of the activity-type buttons. */
    method SelectActivity(t: string)
      requires Valid() && t in ActivityTypes
      modifies this`activityType
      ensures Valid() && activityType == t
    {
      activityType := t;
    }

    method EditContent(text: string)
      modifies this`content
      ensures content == text
    {
      content := text;
    }

    method EditDuration(text: DigitString)
      modifies this`duration
      ensures duration == text
    {
      duration := text;
    }

    method EditDistance(text: string)
      modifies this`distance
      ensures distance == text
    {
      distance := text;
    }

    /** The Post handler, with the outcome of the user lookup and of the
        insert supplied as parameters. */
    method HandlePost(user: Option<string>, insertError: Option<string>)
      returns (inFlight: Option<Status>, sent: Option<PostRow>, wentBack: bool)
      requires Valid()
      modifies this`loading, this`error
      ensures Valid() && FormValue() == old(FormValue())
      ensures Submission(inFlight, sent, wentBack, StatusValue())
           == Submit(old(FormValue()), old(StatusValue()), user, insertError)
    {
      inFlight, sent, wentBack := None, None, false;
      if activityType == [] {
        error := SelectActivityMessage;
        return;
      }
      if duration == [] {
        error := EnterDurationMessage;
        return;
      }
      loading := true;
      error := "";
      inFlight := Some(StatusValue());
      if user == None {
        error := NotAuthenticatedMessage;
      } else {
        var minutes := Value(duration);
        var draft := Draft(content, activityType, minutes, if distance == [] then None else Some(distance));
        assert Validate(FormValue()) == Success(draft);
        sent := Some(RowFor(user.value, draft));
        if insertError == None {
          wentBack := true;
        } else {
          error := insertError.value;
        }
      }
      loading := false;
    }
  }
}
