# FitnessApp new-post rules and session guard, in Dafny

This project models the two pieces of logic in the FitnessApp mobile client
that are more than calls into the backend SDK.

- **The new-post screen** (`app/new-post.tsx`). It offers a fixed list of
  activity types and checks two required fields in a fixed order, each with
  its own message. It turns the duration in minutes into a PostgreSQL
  interval text `HH:MM:00` and builds the row for the `posts` insert.
  Around the remote calls it keeps an `error` text and a `loading` flag.
  - Module `Decimal` models the JavaScript built-ins the encoding uses:
    `parseInt` on digit strings, `toString` on non-negative integers, and
    `padStart`.
  - Module `Interval` holds the encoding and a reader for it.
  - Module `NewPost` holds the validation, the inserted row, and a
    specification function `Submit` for one press of Post.
  - The class `NewPost.NewPostScreen` holds the screen's state. Its
    `HandlePost` method is proved equal to `Submit`.
- **The root layout's navigation guard** (`app/_layout.tsx`). Module
  `RootLayout` models the two redirect decisions as total functions
  returning an optional route:
  - one runs after the stored session has been looked up;
  - one runs on an authentication event.

  Both look at the first route segment. Lemmas state when each decision
  redirects and that following a redirect never causes another one.

The remote user lookup and the insert are parameters of `HandlePost` and
`Submit`: an optional user id, and an optional error message from the
insert. For the guard, the looked-up session and the event kind are
parameters too.

## Model

| member | source | states |
|---|---|---|
| NewPost.ActivityTypesWellFormed | app/new-post.tsx:7-16 | the eight offered activity types are non-empty and pairwise distinct |
| NewPost.SelectedActivityPasses | app/new-post.tsx:7-35 | a form whose activity type is one of the offered ones never gets "Please select an activity type": it is accepted or stopped by the duration check |
| NewPost.Validate | app/new-post.tsx:27-35 | an empty activity type yields "Please select an activity type" whatever the duration; otherwise an empty duration yields "Please enter the duration"; the form passes exactly when both are non-empty, and then carries the minutes the duration text denotes and the distance text exactly when it is non-empty |
| NewPost.RowFor | app/new-post.tsx:46-59 | the inserted row carries the user id, content, activity type and distance unchanged; its duration is the interval encoding of the submitted minutes, reads back as those minutes, and is eight characters long exactly when the minutes are under 6000 |
| NewPost.Submit | app/new-post.tsx:26-69 | a failed check sets only the error, keeps loading and makes no remote call; otherwise the error is cleared and loading set before the remote calls, an insert is attempted exactly for a signed-in user, the screen goes back exactly when that insert succeeds, the error ends as "Not authenticated", the insert's message or empty, and loading ends false |
| NewPost.SentDurationReadsBack | app/new-post.tsx:32-58 | a row is only ever sent for a non-empty duration, and its interval text reads back as the number the duration field denotes |
| NewPost.NewPostScreen.constructor | app/new-post.tsx:19-24 | all four inputs start empty, the error empty, and loading false |
| NewPost.NewPostScreen.SelectActivity | app/new-post.tsx:94-101 | pressing an activity button selects exactly that type, and the selection is always empty or one of the offered types |
| NewPost.NewPostScreen.EditDuration | app/new-post.tsx:117-123 | the duration field takes the typed digits |
| NewPost.NewPostScreen.EditDistance | app/new-post.tsx:128-135 | the distance field takes the typed text |
| NewPost.NewPostScreen.EditContent | app/new-post.tsx:140-147 | the content field takes the typed text |
| NewPost.NewPostScreen.HandlePost | app/new-post.tsx:26-69 | the in-flight status, the row sent, whether the screen went back, and the final error and loading equal what `Submit` prescribes for the form and status before the press; the inputs are unchanged |
| Interval.Encode | app/new-post.tsx:46-49 | the interval text is at least eight characters, with ':' six places from its end and ":00" as its last three; EncodeParses, ReadEncode and EncodeLength give its full meaning |
| Interval.HoursOf | app/new-post.tsx:47 | the hours are the largest whole number of hours within the minutes |
| Interval.MinutesOf | app/new-post.tsx:48 | the remaining minutes are below 60 and with the hours make up the total |
| Interval.Parse | app/new-post.tsx:49 | a text that reads as an interval has a ':' six and three places from its end, an all-digit hour field, two-digit minute and second fields, and field values below 100 |
| Interval.ParseSplit | app/new-post.tsx:49 | an hour field followed by a six-character tail reads as an interval only when the hour field is all digits and the tail is ':', two digits, ':', two digits |
| Interval.ReadMinutes | app/new-post.tsx:49 | an interval text with a minute field below 60 and zero seconds reads as hours times 60 plus minutes |
| Interval.ParseAssembled | app/new-post.tsx:49 | an hour field, ':', two minute digits and ":00" read back as those fields |
| Interval.EncodeParses | app/new-post.tsx:46-49 | the encoding is at least eight characters and reads back as the whole hours, the left-over minutes and zero seconds |
| Interval.ReadEncode | app/new-post.tsx:46-49 | round trip: reading the encoding of any minute count gives that count back |
| Interval.EncodeInjective | app/new-post.tsx:46-49 | two minute counts with the same encoding are equal |
| Interval.EncodeLength | app/new-post.tsx:49 | the encoding is exactly eight characters (`HH:MM:00`, colons at positions 2 and 5) exactly when the minutes are under 6000 |
| Interval.EncodeSeventyFive | app/new-post.tsx:46-49 | 75 minutes encode as "01:15:00" |
| Interval.EncodeFortyFive | app/new-post.tsx:46-49 | 45 minutes encode as "00:45:00" |
| Decimal.Value | app/new-post.tsx:46 | `parseInt` of a digit text is below ten to the power of its length; ValueOfToDecimal, ValueIgnoresLeadingZeros and ValueOfTwoDigits give its meaning |
| Decimal.DigitValue | app/new-post.tsx:46 | a digit character denotes a value below 10 |
| Decimal.DigitChar | app/new-post.tsx:49 | the character written for a digit is a digit character denoting that digit |
| Decimal.ValueOfTwoDigits | app/new-post.tsx:46 | a two-digit text denotes ten times its first digit plus its second, below 100 |
| Decimal.ToDecimal | app/new-post.tsx:49 | `toString` of a non-negative integer is a non-empty digit string whose first character is '0' exactly for 0 |
| Decimal.ValueOfToDecimal | app/new-post.tsx:46-49 | `parseInt` of `toString(n)` gives n back |
| Decimal.ToDecimalAtMostTwo | app/new-post.tsx:49 | the decimal text of n has at most two characters exactly when n is below 100 |
| Decimal.Repeat | app/new-post.tsx:49 | the fill text has the requested length and consists only of the fill character |
| Decimal.PadStart | app/new-post.tsx:49 | `padStart` gives the longer of the input length and the width, ends with the input, and has only fill characters before it |
| Decimal.ValueOfZeros | app/new-post.tsx:49 | a text of zeros denotes 0 |
| Decimal.ValueIgnoresLeadingZeros | app/new-post.tsx:49 | leading zeros do not change the number a digit text denotes |
| Decimal.ValueOfZeroPadded | app/new-post.tsx:49 | padding a digit text with '0' keeps it a digit text denoting the same number |
| RootLayout.InAuthArea | app/_layout.tsx:21-31 | the view is in the auth area only when its first segment is "auth", and never when there are no segments |
| RootLayout.StartupRedirect | app/_layout.tsx:19-25 | after the session lookup: to "/auth/login" exactly when signed out and outside the auth area, to "/(tabs)" exactly when signed in and inside it, otherwise no navigation |
| RootLayout.EventRedirect | app/_layout.tsx:28-34 | on an event: to "/(tabs)" exactly on SIGNED_IN inside the auth area, to "/auth/login" exactly on SIGNED_OUT outside it, and never on any other event |
| RootLayout.StartupRedirectsIffUnsettled | app/_layout.tsx:19-25 | the startup decision stays put exactly when signed-in coincides with being outside the auth area |
| RootLayout.StartupRedirectIsStable | app/_layout.tsx:19-35 | after a startup redirect the view is settled and re-running the decision for the same session redirects no further |
| RootLayout.EventIgnoresSession | app/_layout.tsx:28-34 | the event decision does not depend on the session passed with the event |
| RootLayout.EventAgreesWithStartup | app/_layout.tsx:19-34 | on SIGNED_IN or SIGNED_OUT the event decision equals the startup decision for the session state the event leaves |
| RootLayout.EventRedirectIsStable | app/_layout.tsx:19-35 | after an event redirect neither the same event nor a fresh session lookup redirects again |
| RootLayout.EmptySegmentsAreOutsideAuth | app/_layout.tsx:21-31 | an empty segment list counts as outside the auth area in both decisions |

## Left out

- The remote calls are not modelled. `supabase.auth.getUser`, the `posts` insert, `getSession` and `onAuthStateChange` belong to the backend SDK. Their outcomes are parameters: an optional user id, an optional insert error message, an optional session, an event kind.
- A lookup that fails counts as no session, because the SDK reports a failed lookup as a null session.
- The distance is kept as the entered text. Its `parseFloat` reading is floating point, so the model records only whether a distance is present.
- The duration field holds digits only. It is filled from a number pad, and the model does not cover `parseInt` on other text (NaN, a sign, trailing non-digits).
- Integers are unbounded. JavaScript loses precision past 2^53, and `toString` switches to exponent notation at 10^21. Neither is modelled.
- The ordering between the session lookup and auth events is not modelled, and neither is the listener that is never unsubscribed. Both are event-loop and lifecycle behaviour.
- Not modelled: `router.back()` beyond the `wentBack` flag, `window.frameworkReady`, rendering and styles.
- `app/auth/login.tsx`, `app/auth/register.tsx` and the tab screens are not part of this model.
