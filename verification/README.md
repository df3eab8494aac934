# Mergington High School activity signup, modelled in Dafny

The system keeps an in-memory registry of extracurricular activities. The
registry maps an activity name to a record holding:

- a description;
- a schedule or a category;
- a capacity (`max_participants`);
- the roster of participant emails, in enrollment order.

Students sign up by email. `signup_for_activity` makes three checks in a
fixed order, and the first one that fails ends the call:

1. the activity must exist (not found, HTTP 404);
2. the email must not already be on the roster (bad request, 400);
3. the roster must not be full (bad request, 400).

If all three pass, the email is appended to the roster and a confirmation
message is returned.

The model has five modules:

- `Activities` (activities.dfy): the `Activity` record, the `Registry` map, and the two per-activity invariants. One invariant is the capacity bound; the other says the roster has no duplicate emails.
- `Catalog` (catalog.dfy): the seed catalog. It is the three base entries updated with six more, written as a map union.
- `Enrollment` (signup.dfy): `Signup` as a pure function. It returns a `Step`, which is the registry after the call together with the reply. The error datatype has `NotFound`, `AlreadySignedUp` and `Full`. `get_activities` is an identity read.
- `Requests` (requests.dfy): a stream of signup requests handled one after another. This is what lets the invariants be stated "at all times", for every registry reachable from the seed.
- `Scenarios` (scenarios.dfy): concrete request sequences against the seed.

## Model

| member | source | states |
|---|---|---|
| `Catalog.SeedValid` | src/app.py:23-83 | The seed has nine activities, and the update adds no key the base already had. Every entry has a positive capacity and exactly one of schedule and category. Every entry is within capacity and has no duplicate emails. |
| `Catalog.EntriesDisjoint` | src/app.py:46-83 | The six added entries share no key with the three base entries, so the update replaces none of them. "Chess Club" and "chess_club" are distinct keys. |
| `Catalog.BaseEntriesWellFormed` | src/app.py:23-42 | Each base entry has a schedule and no category, a positive capacity, and a roster that is duplicate-free and within capacity. |
| `Catalog.AddedEntriesWellFormed` | src/app.py:46-83 | Each added entry has a category and no schedule, a positive capacity, and an empty roster, which is valid. |
| `Catalog.SeedLookups` | src/app.py:24-52 | In the seed, "Chess Club" has capacity 12 and roster [michael, daniel]. "basketball" has capacity 10 and an empty roster. |
| `Enrollment.Signup` | src/app.py:96-116 | A signup never adds or removes an activity. It never changes any activity other than the named one. On any error it returns the registry unchanged. |
| `Enrollment.Status` | src/app.py:100-112 | The status is 404 exactly for a missing activity. It is 400 exactly for the two business-rule refusals. |
| `Enrollment.Detail` | src/app.py:100-112 | Each error carries the detail text raised for it: "Activity not found", "Student already signed up for this activity" or "Activity is at full capacity". Each of those texts belongs to that error only. |
| `Enrollment.DetailsDistinguishErrors` | src/app.py:100-112 | Two errors carry the same detail text only if they are the same error, so the two 400 refusals can be told apart. |
| `Enrollment.Confirmation` | src/app.py:116 | The message length is the sum of the lengths of its parts. The message opens with "Signed up ", the email comes next, then " for ", and it ends with the activity name. |
| `Enrollment.ConfirmationDeterminesEmailAndName` | src/app.py:116 | Fix the activity, and the confirmation message determines the email. Fix the email, and it determines the activity. With neither half fixed the pair is not recovered, because an email that contains " for " can move text between the halves. |
| `Enrollment.UnknownActivityNotFound` | src/app.py:100-101 | An unknown activity name gives not-found for any email, and the registry is unchanged. |
| `Enrollment.EnrolledEmailRejected` | src/app.py:104-108 | An email already on the roster gives already-signed-up, even when the activity is also full, and the registry is unchanged. |
| `Enrollment.FullActivityRejected` | src/app.py:110-112 | A fresh email for an activity whose roster length is at least its capacity gives full-capacity, and the registry is unchanged. |
| `Enrollment.ErrorOrder` | src/app.py:99-112 | Each error holds if and only if its condition holds and every earlier check passed. Not-found beats duplicate, and duplicate beats capacity. |
| `Enrollment.SignupSucceedsIff` | src/app.py:99-115 | A signup succeeds if and only if the activity exists, the email is not on its roster, and the roster has room. |
| `Enrollment.SuccessAppends` | src/app.py:104-116 | On success the new roster is the old roster with the email appended. It is one longer, it has the old roster as a prefix, and it contains the email. Capacity, description, schedule and category are unchanged. The message is the confirmation for that email and activity. |
| `Enrollment.SignupPreservesValidActivity` | src/app.py:107-115 | An activity that was within capacity and duplicate-free before a signup still is after it, whether the call succeeds or fails and whatever the other activities look like. |
| `Enrollment.SignupPreservesValid` | src/app.py:107-115 | If every activity was within capacity and duplicate-free before a signup, every activity still is after it, whether the call succeeds or fails. |
| `Enrollment.GetActivities` | src/app.py:91-93 | The listing shows every activity of the registry with its full record, and no other activity. |
| `Enrollment.ListingAfterSignup` | src/app.py:91-115 | After a successful signup, the listing shows the extended roster and the same capacity as before. |
| `Requests.Serve` | src/app.py:96-116 | Handling a request stream one request at a time keeps the set of activity names and gives exactly one reply per request. |
| `Requests.ServePreservesValid` | src/app.py:107-115 | Both invariants hold for every activity after any request stream that starts from a valid registry. |
| `Requests.ReachableValid` | src/app.py:23-116 | Every registry reachable from the seed catalog by signups has every activity within capacity and duplicate-free. |
| `Requests.ServeOnlyAppends` | src/app.py:104-115 | Over any request stream, rosters only grow at the end: each old roster is a prefix of the new one. Capacity, description, schedule and category never change. |
| `Requests.FillRoster` | src/app.py:106-116 | Signing up distinct fresh emails for an activity with room for all of them succeeds each time with the matching confirmation. The roster ends as the old roster followed by those emails, in order. |
| `Scenarios.FilledThenFull` | src/app.py:110-112 | Once fresh emails fill an activity exactly to capacity, one more fresh email gets full-capacity and changes nothing. |
| `Scenarios.NewKidThenRepeat` | src/app.py:106-115 | Starting from roster [michael, daniel] with room left, newkid becomes the third entry. Michael signing up again is refused as a duplicate, and the roster stays at three. |
| `Scenarios.ChessClubMessage` | src/app.py:116 | The confirmation for newkid joining "Chess Club" is the text "Signed up newkid@mergington.edu for Chess Club". |
| `Scenarios.ChessClubScenario` | src/app.py:24-116 | From the seed, newkid joins "Chess Club" after michael and daniel, and gets that message. Signing michael up again is refused as a duplicate. |
| `Scenarios.BasketballScenario` | src/app.py:47-116 | From the seed, ten distinct signups for the empty "basketball" all succeed and fill it in order. An eleventh distinct email gets full-capacity. |

## Left out

- The web framework is not modelled: app construction, the static-file mount and the `/` redirect (src/app.py:14-20, 86-88).
- HTTP exceptions are not modelled as exceptions. Each refusal is a `SignupError` value, and `Status` and `Detail` give its status code and detail text.
- JSON serialisation of the listing is not modelled, and neither is dictionary insertion order. A Dafny `map` has no order, so `GetActivities` is the registry itself.
- Concurrency is not modelled. Under concurrent requests, two calls could both pass the capacity check before either one appends. The model handles requests one at a time, in arrival order, which is what `Requests.Serve` describes.
- Email format is not checked, because the code does no validation. Emails are opaque strings.
- Description, schedule and category are opaque strings; their content is not modelled. The catalog mixes schedule entries and category entries, so each record has an optional schedule and an optional category.
- Aliasing is not modelled. The source appends in place to a list shared with the registry. The model returns a new registry value instead, which gives the same observable state.
- `max_participants` is an unbounded `int`. The code never checks that it is positive, so the invariants do not assume it; `Catalog.SeedValid` proves that every seed capacity is positive.
