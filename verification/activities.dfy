/**
 The data model of the activity registry: an activity record, the registry
 that maps activity names to records, and the two per-activity invariants
 the signup operation is meant to keep (capacity and no duplicate emails).
 */
module Activities {

  /** An optional value; used for the schedule and category fields, which
      only some catalog entries carry. */
  datatype Option<+T> = None | Some(value: T)

  /** One extracurricular activity. `description`, `schedule` and `category`
      are opaque display strings; `participants` is the roster of emails in
      the order they enrolled. */
  datatype Activity = Activity(
    description: string,
    schedule: Option<string>,
    category: Option<string>,
    maxParticipants: int,
    participants: seq<string>)

  /** The in-memory registry, keyed by activity name. */
  type Registry = map<string, Activity>

  /** No email occurs twice in the roster. */
  predicate NoDuplicates(s: seq<string>)
  {
    forall i, j :: 0 <= i < j < |s| ==> s[i] != s[j]
  }

  /** The roster does not exceed the activity's capacity. */
  predicate WithinCapacity(a: Activity)
  {
    |a.participants| <= a.maxParticipants
  }

  /** Both per-activity invariants. */
  predicate ValidActivity(a: Activity)
  {
    WithinCapacity(a) && NoDuplicates(a.participants)
  }

  /** Every activity of the registry satisfies both invariants. */
  predicate ValidRegistry(reg: Registry)
  {
    forall name :: name in reg ==> ValidActivity(reg[name])
  }

  /** Whether the activity has no free place left (a derived fact, not a
      stored state). */
  predicate IsFull(a: Activity)
  {
    |a.participants| >= a.maxParticipants
  }

  /** `p` is a prefix of `s`. */
  predicate IsPrefix(p: seq<string>, s: seq<string>)
  {
    |p| <= |s| && s[..|p|] == p
  }

  /** Appending an email that is not yet on a duplicate-free roster keeps it
      duplicate-free, and the result holds exactly the old emails plus it. */
  lemma AppendFresh(s: seq<string>, e: string)
    requires NoDuplicates(s)
    requires e !in s
    ensures NoDuplicates(s + [e])
    ensures forall x :: x in s + [e] <==> x in s || x == e
  {
    var t := s + [e];
    forall i, j | 0 <= i < j < |t|
      ensures t[i] != t[j]
    {
      if j == |s| {
        assert t[i] == s[i];
        assert s[i] in s;
      } else {
        assert t[i] == s[i] && t[j] == s[j];
      }
    }
  }

  /** The prefix relation is transitive. */
  lemma PrefixTransitive(a: seq<string>, b: seq<string>, c: seq<string>)
    requires IsPrefix(a, b) && IsPrefix(b, c)
    ensures IsPrefix(a, c)
  {
    assert c[..|a|] == c[..|b|][..|a|];
  }
}
