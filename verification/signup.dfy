/**
 The signup operation: three checks in a fixed order (the activity exists,
 the email is not yet enrolled, the roster has room), each of which ends the
 call with an error and leaves the registry as it was; when all pass, the
 email is appended to that activity's roster and a confirmation is returned.
 */
module Enrollment {
  import opened Activities

  /** The three ways a signup can be refused. */
  datatype SignupError = NotFound | AlreadySignedUp | Full

  /** The reply to a request: a confirmation message or an error. */
  datatype Reply = Ok(message: string) | Err(error: SignupError)

  /** The registry after a call, together with the reply to the caller. */
  datatype Step = Step(registry: Registry, reply: Reply)

  /** The HTTP status the error is reported with: not-found for a missing
      activity, bad-request for both business-rule refusals. */
  function Status(e: SignupError): (code: int)
    ensures code == 404 <==> e == NotFound
    ensures code == 400 <==> e != NotFound
  {
    match e
    case NotFound => 404
    case AlreadySignedUp => 400
    case Full => 400
  }

  /** The human-readable detail carried by each error: each text belongs
      to exactly one error. */
  function Detail(e: SignupError): (d: string)
    ensures d == "Activity not found" <==> e == NotFound
    ensures d == "Student already signed up for this activity" <==> e == AlreadySignedUp
    ensures d == "Activity is at full capacity" <==> e == Full
  {
    match e
    case NotFound => "Activity not found"
    case AlreadySignedUp => "Student already signed up for this activity"
    case Full => "Activity is at full capacity"
  }

  /** The three errors carry three different details, so a caller can tell
      the two bad-request refusals apart. */
  lemma DetailsDistinguishErrors(e1: SignupError, e2: SignupError)
    ensures Detail(e1) == Detail(e2) <==> e1 == e2
  {
    if e1 != e2 {
      assert Detail(e1)[0] != Detail(e2)[0] || Detail(e1)[9] != Detail(e2)[9];
    }
  }

  const Lead := "Signed up "
  const Joint := " for "

  /** The success message naming the enrolled email and the activity: it
      opens with `Lead`, the email follows, and it ends with `Joint` and the
      activity name. */
  function Confirmation(email: string, name: string): (m: string)
    ensures |m| == |Lead| + |email| + |Joint| + |name|
    ensures m[..|Lead|] == Lead
    ensures m[|Lead|..|Lead| + |email|] == email
    ensures m[|Lead| + |email|..|m| - |name|] == Joint
    ensures m[|m| - |name|..] == name
  {
    Lead + email + Joint + name
  }

  /** For a given activity the confirmation determines the email, and for a
      given email it determines the activity. With neither half fixed the
      pair is not recovered: an email containing " for " can shift text
      between the two halves. */
  lemma ConfirmationDeterminesEmailAndName(e1: string, n1: string, e2: string, n2: string)
    requires Confirmation(e1, n1) == Confirmation(e2, n2)
    ensures n1 == n2 ==> e1 == e2
    ensures e1 == e2 ==> n1 == n2
  {
    var m := Confirmation(e1, n1);
    if n1 == n2 {
      assert |e1| == |e2|;
      assert e1 == m[|Lead|..|Lead| + |e1|];
      assert e2 == m[|Lead|..|Lead| + |e2|];
    }
    if e1 == e2 {
      assert |n1| == |n2|;
      assert n1 == m[|m| - |n1|..];
      assert n2 == m[|m| - |n2|..];
    }
  }

  /** `signup_for_activity`: on failure the registry comes back unchanged;
      in every case the key set is unchanged and every other activity is
      untouched. */
  function Signup(reg: Registry, name: string, email: string): (r: Step)
    ensures r.registry.Keys == reg.Keys
    ensures forall other :: other in reg && other != name ==> r.registry[other] == reg[other]
    ensures r.reply.Err? ==> r.registry == reg
  {
    if name !in reg then
      Step(reg, Err(NotFound))
    else
      var a := reg[name];
      if email in a.participants then
        Step(reg, Err(AlreadySignedUp))
      else if |a.participants| >= a.maxParticipants then
        Step(reg, Err(Full))
      else
        Step(reg[name := a.(participants := a.participants + [email])],
             Ok(Confirmation(email, name)))
  }

  /** `get_activities`: the listing shows every activity of the registry
      with its full record, and nothing else. */
  function GetActivities(reg: Registry): (listed: Registry)
    ensures listed.Keys == reg.Keys
    ensures forall name :: name in reg ==> listed[name] == reg[name]
  {
    reg
  }

  /** An unknown activity is refused with not-found, whatever the email,
      and nothing changes. */
  lemma UnknownActivityNotFound(reg: Registry, name: string, email: string)
    requires name !in reg
    ensures Signup(reg, name, email) == Step(reg, Err(NotFound))
  {
  }

  /** An email already on the roster is refused as a duplicate, even when
      the activity is also full, and nothing changes. */
  lemma EnrolledEmailRejected(reg: Registry, name: string, email: string)
    requires name in reg && email in reg[name].participants
    ensures Signup(reg, name, email) == Step(reg, Err(AlreadySignedUp))
  {
  }

  /** A fresh email for a full activity is refused for capacity, and
      nothing changes. */
  lemma FullActivityRejected(reg: Registry, name: string, email: string)
    requires name in reg && email !in reg[name].participants
    requires IsFull(reg[name])
    ensures Signup(reg, name, email) == Step(reg, Err(Full))
  {
  }

  /** The error reported follows the order of the checks: not-found before
      duplicate before capacity. */
  lemma ErrorOrder(reg: Registry, name: string, email: string)
    ensures var r := Signup(reg, name, email);
      && (r.reply == Err(NotFound) <==> name !in reg)
      && (r.reply == Err(AlreadySignedUp) <==> name in reg && email in reg[name].participants)
      && (r.reply == Err(Full) <==>
            name in reg && email !in reg[name].participants && IsFull(reg[name]))
  {
  }

  /** A signup succeeds exactly when the activity exists, the email is not
      on its roster and the roster has room. */
  lemma SignupSucceedsIff(reg: Registry, name: string, email: string)
    ensures Signup(reg, name, email).reply.Ok? <==>
      name in reg && email !in reg[name].participants && !IsFull(reg[name])
  {
  }

  /** On success the activity's roster is the old one with the email
      appended at the end: one longer, the old roster a prefix, the email
      now enrolled; the capacity, description, schedule and category are
      unchanged, and the message names that email and activity. */
  lemma SuccessAppends(reg: Registry, name: string, email: string)
    requires Signup(reg, name, email).reply.Ok?
    ensures var r := Signup(reg, name, email);
      && name in reg && name in r.registry
      && r.registry[name].participants == reg[name].participants + [email]
      && |r.registry[name].participants| == |reg[name].participants| + 1
      && IsPrefix(reg[name].participants, r.registry[name].participants)
      && email in r.registry[name].participants
      && r.registry[name].maxParticipants == reg[name].maxParticipants
      && r.registry[name].description == reg[name].description
      && r.registry[name].schedule == reg[name].schedule
      && r.registry[name].category == reg[name].category
      && r.reply.message == Confirmation(email, name)
  {
  }

  /** Whatever the outcome, an activity that satisfied both invariants
      before a signup still does after it, whatever the other activities
      look like. */
  lemma SignupPreservesValidActivity(reg: Registry, name: string, email: string, n: string)
    requires n in reg && ValidActivity(reg[n])
    ensures n in Signup(reg, name, email).registry
    ensures ValidActivity(Signup(reg, name, email).registry[n])
  {
    if n == name && Signup(reg, name, email).reply.Ok? {
      AppendFresh(reg[n].participants, email);
    }
  }

  /** Whatever the outcome, a registry whose every activity satisfied both
      invariants still does. */
  lemma SignupPreservesValid(reg: Registry, name: string, email: string)
    requires ValidRegistry(reg)
    ensures ValidRegistry(Signup(reg, name, email).registry)
  {
    var after := Signup(reg, name, email).registry;
    forall n | n in after
      ensures ValidActivity(after[n])
    {
      SignupPreservesValidActivity(reg, name, email, n);
    }
  }

  /** Listing after a successful signup shows the updated roster and the
      same capacity. */
  lemma ListingAfterSignup(reg: Registry, name: string, email: string)
    requires Signup(reg, name, email).reply.Ok?
    ensures var listed := GetActivities(Signup(reg, name, email).registry);
      && name in listed && name in GetActivities(reg)
      && listed[name].participants == GetActivities(reg)[name].participants + [email]
      && listed[name].maxParticipants == GetActivities(reg)[name].maxParticipants
  {
  }
}
