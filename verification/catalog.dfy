/**
 The seed catalog the registry holds at process start: three activities with
 a schedule, then six more with a category added by a later update of the
 same dictionary.
 */
module Catalog {
  import opened Activities

  /** The first three entries, each with a schedule and two participants. */
  function BaseEntries(): Registry
  {
    map[
      "Chess Club" := Activity(
        "Learn strategies and compete in chess tournaments",
        Some("Fridays, 3:30 PM - 5:00 PM"), None,
        12, ["michael@mergington.edu", "daniel@mergington.edu"]),
      "Programming Class" := Activity(
        "Learn programming fundamentals and build software projects",
        Some("Tuesdays and Thursdays, 3:30 PM - 4:30 PM"), None,
        20, ["emma@mergington.edu", "sophia@mergington.edu"]),
      "Gym Class" := Activity(
        "Physical education and sports activities",
        Some("Mondays, Wednesdays, Fridays, 2:00 PM - 3:00 PM"), None,
        30, ["john@mergington.edu", "olivia@mergington.edu"])
    ]
  }

  /** The six entries added afterwards, each with a category and no
      participants yet. */
  function AddedEntries(): Registry
  {
    map[
      "basketball" := Activity(
        "5-a-side basketball games for all skill levels.",
        None, Some("sports"), 10, []),
      "swimming" := Activity(
        "Lap swimming and technique practice at the campus pool.",
        None, Some("sports"), 12, []),
      "painting_workshop" := Activity(
        "Beginner-friendly acrylic painting sessions.",
        None, Some("artistic"), 8, []),
      "sculpture_class" := Activity(
        "Hands-on clay sculpture projects.",
        None, Some("artistic"), 8, []),
      "chess_club" := Activity(
        "Weekly chess practice and friendly tournaments.",
        None, Some("intellectual"), 16, []),
      "debate_club" := Activity(
        "Meetups to practice public speaking and structured debates.",
        None, Some("intellectual"), 20, [])
    ]
  }

  /** The registry at start: the base entries updated with the added ones
      (on a shared key the update would win; there is none). */
  function Seed(): Registry
  {
    BaseEntries() + AddedEntries()
  }

  /** The update overwrites none of the base entries. */
  lemma EntriesDisjoint()
    ensures BaseEntries().Keys !! AddedEntries().Keys
    ensures |BaseEntries().Keys| == 3 && |AddedEntries().Keys| == 6
  {
    assert BaseEntries().Keys == {"Chess Club", "Programming Class", "Gym Class"};
    assert AddedEntries().Keys == {"basketball", "swimming", "painting_workshop",
                                   "sculpture_class", "chess_club", "debate_club"};
  }

  /** An entry with a positive capacity, exactly one of schedule and
      category, and a roster satisfying both registry invariants. */
  predicate WellFormedEntry(a: Activity)
  {
    a.maxParticipants > 0 && a.schedule.Some? != a.category.Some? && ValidActivity(a)
  }

  /** The base entries carry a schedule and no category. */
  lemma BaseEntriesWellFormed()
    ensures forall name :: name in BaseEntries() ==> WellFormedEntry(BaseEntries()[name])
    ensures forall name :: name in BaseEntries() ==>
      BaseEntries()[name].schedule.Some? && BaseEntries()[name].category.None?
  {
  }

  /** The added entries carry a category, no schedule and an empty roster. */
  lemma AddedEntriesWellFormed()
    ensures forall name :: name in AddedEntries() ==> WellFormedEntry(AddedEntries()[name])
    ensures forall name :: name in AddedEntries() ==>
      AddedEntries()[name].category.Some? && AddedEntries()[name].schedule.None?
      && AddedEntries()[name].participants == []
  {
  }

  /** The seed holds exactly nine activities, the update overwrites none of
      the base entries, every capacity is positive, every entry carries
      exactly one of schedule and category, and every entry satisfies both
      invariants. */
  lemma SeedValid()
    ensures BaseEntries().Keys !! AddedEntries().Keys
    ensures |Seed().Keys| == 9
    ensures forall name :: name in Seed() ==> WellFormedEntry(Seed()[name])
    ensures ValidRegistry(Seed())
  {
    var base, added := BaseEntries(), AddedEntries();
    EntriesDisjoint();
    BaseEntriesWellFormed();
    AddedEntriesWellFormed();
    assert Seed().Keys == base.Keys + added.Keys;
    forall name | name in Seed()
      ensures WellFormedEntry(Seed()[name])
    {
      if name in added {
        assert Seed()[name] == added[name];
      } else {
        assert Seed()[name] == base[name];
      }
    }
  }

  /** The two seed entries the concrete scenarios start from. */
  lemma SeedLookups()
    ensures "Chess Club" in Seed() && "basketball" in Seed()
    ensures Seed()["Chess Club"].participants ==
      ["michael@mergington.edu", "daniel@mergington.edu"]
    ensures Seed()["Chess Club"].maxParticipants == 12
    ensures Seed()["basketball"].participants == []
    ensures Seed()["basketball"].maxParticipants == 10
  {
    assert Seed()["basketball"] == AddedEntries()["basketball"];
    assert "Chess Club" !in AddedEntries();
    assert Seed()["Chess Club"] == BaseEntries()["Chess Club"];
  }
}
