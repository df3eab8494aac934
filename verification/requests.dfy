/**
 A stream of signup requests handled one at a time, in arrival order, each
 against the registry the previous one left behind. This is how the
 registry evolves "at all times" under a serialising request layer.
 */
module Requests {
  import opened Activities
  import opened Enrollment
  import Catalog

  /** One signup request: the activity name and the email. */
  datatype Request = Request(activity: string, email: string)

  /** The registry after a request stream, with one reply per request. */
  datatype Run = Run(registry: Registry, replies: seq<Reply>)

  /** Handle the requests in order. The key set never changes, and there is
      one reply per request. */
  function Serve(reg: Registry, reqs: seq<Request>): (r: Run)
    ensures |r.replies| == |reqs|
    ensures r.registry.Keys == reg.Keys
    decreases |reqs|
  {
    if |reqs| == 0 then
      Run(reg, [])
    else
      var s := Signup(reg, reqs[0].activity, reqs[0].email);
      var rest := Serve(s.registry, reqs[1..]);
      Run(rest.registry, [s.reply] + rest.replies)
  }

  /** The requests that sign each of `emails`, in order, up for `name`. */
  function SignupsFor(name: string, emails: seq<string>): (reqs: seq<Request>)
    ensures |reqs| == |emails|
    ensures forall i :: 0 <= i < |reqs| ==> reqs[i] == Request(name, emails[i])
  {
    seq(|emails|, i requires 0 <= i < |emails| => Request(name, emails[i]))
  }

  /** Both invariants hold of every activity after any request stream that
      starts from a registry where they hold. */
  lemma {:induction false} ServePreservesValid(reg: Registry, reqs: seq<Request>)
    requires ValidRegistry(reg)
    ensures ValidRegistry(Serve(reg, reqs).registry)
    decreases |reqs|
  {
    if |reqs| > 0 {
      var s := Signup(reg, reqs[0].activity, reqs[0].email);
      SignupPreservesValid(reg, reqs[0].activity, reqs[0].email);
      ServePreservesValid(s.registry, reqs[1..]);
    }
  }

  /** Every registry reachable from the seed catalog by signups keeps both
      invariants for every activity. */
  lemma ReachableValid(reqs: seq<Request>)
    ensures ValidRegistry(Serve(Catalog.Seed(), reqs).registry)
  {
    Catalog.SeedValid();
    ServePreservesValid(Catalog.Seed(), reqs);
  }

  /** Over any request stream only rosters change, and only by growing at
      the end: each old roster is a prefix of the new one, and capacity,
      description, schedule and category stay as they were. */
  lemma {:induction false} ServeOnlyAppends(reg: Registry, reqs: seq<Request>, name: string)
    requires name in reg
    ensures var after := Serve(reg, reqs).registry;
      && name in after
      && IsPrefix(reg[name].participants, after[name].participants)
      && after[name].maxParticipants == reg[name].maxParticipants
      && after[name].description == reg[name].description
      && after[name].schedule == reg[name].schedule
      && after[name].category == reg[name].category
    decreases |reqs|
  {
    if |reqs| > 0 {
      var s := Signup(reg, reqs[0].activity, reqs[0].email);
      if reqs[0].activity == name && s.reply.Ok? {
        SuccessAppends(reg, reqs[0].activity, reqs[0].email);
      }
      assert IsPrefix(reg[name].participants, s.registry[name].participants);
      ServeOnlyAppends(s.registry, reqs[1..], name);
      PrefixTransitive(reg[name].participants, s.registry[name].participants,
                       Serve(reg, reqs).registry[name].participants);
    }
  }

  /** Dropping the first of a duplicate-free list of emails that are all
      fresh for `p` leaves a duplicate-free list whose emails are all fresh
      for `p` with the first appended. */
  lemma FreshTail(p: seq<string>, emails: seq<string>)
    requires |emails| > 0
    requires NoDuplicates(emails)
    requires forall i :: 0 <= i < |emails| ==> emails[i] !in p
    ensures NoDuplicates(emails[1..])
    ensures forall i :: 0 <= i < |emails[1..]| ==> emails[1..][i] !in p + [emails[0]]
  {
    var tail := emails[1..];
    forall i | 0 <= i < |tail|
      ensures tail[i] !in p + [emails[0]]
    {
      assert tail[i] == emails[i + 1];
    }
    forall i, j | 0 <= i < j < |tail|
      ensures tail[i] != tail[j]
    {
      assert tail[i] == emails[i + 1] && tail[j] == emails[j + 1];
    }
  }

  /** Signing up distinct fresh emails for an activity with room for all of
      them succeeds every time, and leaves the roster as the old one
      followed by those emails in order. */
  lemma {:induction false} FillRoster(reg: Registry, name: string, emails: seq<string>)
    requires name in reg
    requires NoDuplicates(emails)
    requires forall i :: 0 <= i < |emails| ==> emails[i] !in reg[name].participants
    requires |reg[name].participants| + |emails| <= reg[name].maxParticipants
    ensures var run := Serve(reg, SignupsFor(name, emails));
      && (forall i :: 0 <= i < |emails| ==> run.replies[i] == Ok(Confirmation(emails[i], name)))
      && name in run.registry
      && run.registry[name].participants == reg[name].participants + emails
      && run.registry[name].maxParticipants == reg[name].maxParticipants
    decreases |emails|
  {
    var reqs := SignupsFor(name, emails);
    if |emails| > 0 {
      var p := reg[name].participants;
      var e, tail := emails[0], emails[1..];
      var s := Signup(reg, name, e);
      SuccessAppends(reg, name, e);
      FreshTail(p, emails);
      assert reqs[1..] == SignupsFor(name, tail);
      FillRoster(s.registry, name, tail);
      var rest := Serve(s.registry, SignupsFor(name, tail));
      assert Serve(reg, reqs) == Run(rest.registry, [s.reply] + rest.replies);
      assert p + [e] + tail == p + emails;
    }
  }
}
