/**
 Concrete request sequences against the seed catalog: a fresh signup and a
 repeated one for "Chess Club", and "basketball" filled to its capacity of
 ten and then refused.
 */
module Scenarios {
  import opened Activities
  import opened Enrollment
  import opened Requests
  import Catalog

  /** Once an activity is filled to capacity with fresh emails, one more
      fresh email is refused for capacity and the registry stays as the
      filling left it. */
  lemma FilledThenFull(reg: Registry, name: string, emails: seq<string>, extra: string)
    requires name in reg
    requires NoDuplicates(emails)
    requires forall i :: 0 <= i < |emails| ==> emails[i] !in reg[name].participants
    requires |reg[name].participants| + |emails| == reg[name].maxParticipants
    requires extra !in reg[name].participants && extra !in emails
    ensures var filled := Serve(reg, SignupsFor(name, emails)).registry;
      Signup(filled, name, extra) == Step(filled, Err(Full))
  {
    FillRoster(reg, name, emails);
    var filled := Serve(reg, SignupsFor(name, emails)).registry;
    assert extra !in filled[name].participants;
    FullActivityRejected(filled, name, extra);
  }

  const Michael := "michael@mergington.edu"
  const Daniel := "daniel@mergington.edu"
  const NewKid := "newkid@mergington.edu"

  /** A fresh email joins a roster of [Michael, Daniel] with room left as
      its third entry; Michael signing up again is then refused as a
      duplicate and the roster stays at three. */
  lemma NewKidThenRepeat(reg: Registry, name: string)
    requires name in reg
    requires reg[name].participants == [Michael, Daniel]
    requires reg[name].maxParticipants > 2
    ensures var first := Signup(reg, name, NewKid);
      && first.reply == Ok(Confirmation(NewKid, name))
      && first.registry[name].participants == [Michael, Daniel, NewKid]
      && var second := Signup(first.registry, name, Michael);
      && second == Step(first.registry, Err(AlreadySignedUp))
      && |second.registry[name].participants| == 3
  {
    assert NewKid != Michael && NewKid != Daniel by {
      assert NewKid[0] != Michael[0] && NewKid[0] != Daniel[0];
    }
    SuccessAppends(reg, name, NewKid);
    var first := Signup(reg, name, NewKid);
    EnrolledEmailRejected(first.registry, name, Michael);
  }

  /** The confirmation for "newkid" joining "Chess Club". */
  lemma ChessClubMessage()
    ensures Confirmation(NewKid, "Chess Club") == "Signed up newkid@mergington.edu for Chess Club"
  {
  }

  /** From the seed: "newkid" joins "Chess Club" as its third participant,
      after the two seeded ones, with the message "Signed up
      newkid@mergington.edu for Chess Club"; signing "michael" up again is
      refused as a duplicate. */
  lemma ChessClubScenario()
    ensures var first := Signup(Catalog.Seed(), "Chess Club", NewKid);
      && first.reply == Ok("Signed up newkid@mergington.edu for Chess Club")
      && first.registry["Chess Club"].participants == [Michael, Daniel, NewKid]
      && Signup(first.registry, "Chess Club", Michael) == Step(first.registry, Err(AlreadySignedUp))
  {
    ChessClubMessage();
    Catalog.SeedLookups();
    NewKidThenRepeat(Catalog.Seed(), "Chess Club");
  }

  /** Ten distinct students for "basketball". */
  function TenStudents(): seq<string>
  {
    ["s0@mergington.edu", "s1@mergington.edu", "s2@mergington.edu",
     "s3@mergington.edu", "s4@mergington.edu", "s5@mergington.edu",
     "s6@mergington.edu", "s7@mergington.edu", "s8@mergington.edu",
     "s9@mergington.edu"]
  }

  const Eleventh := "s10@mergington.edu"

  /** The ten students are distinct and the eleventh is none of them. */
  lemma StudentsDistinct()
    ensures NoDuplicates(TenStudents())
    ensures Eleventh !in TenStudents()
  {
    var students := TenStudents();
    forall i, j | 0 <= i < j < |students|
      ensures students[i] != students[j]
    {
      assert students[i][1] != students[j][1];
    }
    forall i | 0 <= i < |students|
      ensures students[i] != Eleventh
    {
      assert students[i][2] != Eleventh[2];
    }
  }

  /** From the seed: ten distinct signups for the empty "basketball" all
      succeed and fill it; an eleventh distinct email is refused for
      capacity. */
  lemma BasketballScenario()
    ensures var run := Serve(Catalog.Seed(), SignupsFor("basketball", TenStudents()));
      && (forall i :: 0 <= i < 10 ==> run.replies[i].Ok?)
      && run.registry["basketball"].participants == TenStudents()
      && Signup(run.registry, "basketball", Eleventh) == Step(run.registry, Err(Full))
  {
    Catalog.SeedLookups();
    StudentsDistinct();
    FillRoster(Catalog.Seed(), "basketball", TenStudents());
    FilledThenFull(Catalog.Seed(), "basketball", TenStudents(), Eleventh);
  }
}
