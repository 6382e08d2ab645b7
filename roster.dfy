/** The activity roster as values: a fixed map from activity name to its
    record, of which only the ordered participant list ever changes, and the
    signup and unregister handlers as functions from the roster to an answer
    and the new roster. */
module Roster {
  import opened Outcomes

  datatype Activity = Activity(
    description: string,
    schedule: string,
    maxParticipants: int,
    participants: seq<string>)

  type Activities = map<string, Activity>

  /** The activities in the order they are declared, which is the order the
      listing shows them in. */
  const SeedOrder: seq<string> := [
    "Chess Club", "Programming Class", "Gym Class", "Soccer Team", "Basketball Team",
    "Art Club", "Drama Club", "Math Club", "Debate Team"]

  /** The roster as the service starts. */
  const Seed: Activities := map[
    "Chess Club" := Activity(
      "Learn strategies and compete in chess tournaments",
      "Fridays, 3:30 PM - 5:00 PM", 12,
      ["michael@mergington.edu", "daniel@mergington.edu"]),
    "Programming Class" := Activity(
      "Learn programming fundamentals and build software projects",
      "Tuesdays and Thursdays, 3:30 PM - 4:30 PM", 20,
      ["emma@mergington.edu", "sophia@mergington.edu"]),
    "Gym Class" := Activity(
      "Physical education and sports activities",
      "Mondays, Wednesdays, Fridays, 2:00 PM - 3:00 PM", 30,
      ["john@mergington.edu", "olivia@mergington.edu"]),
    "Soccer Team" := Activity(
      "Join the school soccer team and compete in matches",
      "Tuesdays and Thursdays, 4:00 PM - 5:30 PM", 22,
      ["liam@mergington.edu", "noah@mergington.edu"]),
    "Basketball Team" := Activity(
      "Practice and play basketball with the school team",
      "Wednesdays and Fridays, 3:30 PM - 5:00 PM", 15,
      ["ava@mergington.edu", "mia@mergington.edu"]),
    "Art Club" := Activity(
      "Explore your creativity through painting and drawing",
      "Thursdays, 3:30 PM - 5:00 PM", 15,
      ["amelia@mergington.edu", "harper@mergington.edu"]),
    "Drama Club" := Activity(
      "Act, direct, and produce plays and performances",
      "Mondays and Wednesdays, 4:00 PM - 5:30 PM", 20,
      ["ella@mergington.edu", "scarlett@mergington.edu"]),
    "Math Club" := Activity(
      "Solve challenging problems and participate in math competitions",
      "Tuesdays, 3:30 PM - 4:30 PM", 10,
      ["james@mergington.edu", "benjamin@mergington.edu"]),
    "Debate Team" := Activity(
      "Develop public speaking and argumentation skills",
      "Fridays, 4:00 PM - 5:30 PM", 12,
      ["charlotte@mergington.edu", "henry@mergington.edu"])]

  // ---------------------------------------------------------------------
  // Participant lists

  ghost predicate NoDuplicates(s: seq<string>)
  {
    forall i, j :: 0 <= i < j < |s| ==> s[i] != s[j]
  }

  /** No activity lists an email twice. */
  ghost predicate RosterInvariant(acts: Activities)
  {
    forall name :: name in acts ==> NoDuplicates(acts[name].participants)
  }

  /** Position of the first occurrence of x (list.index). */
  function IndexOf(s: seq<string>, x: string): (i: nat)
    requires x in s
    ensures i < |s| && s[i] == x && x !in s[..i]
  {
    if s[0] == x then 0
    else
      var j := IndexOf(s[1..], x);
      assert s[..j + 1] == [s[0]] + s[1..][..j];
      j + 1
  }

  /** list.remove: drops the first occurrence of x, keeping the order of
      everything else. For a list without x, where list.remove raises, this
      model returns the list unchanged; unregister never gets there, since
      it checks membership first. */
  function RemoveFirst(s: seq<string>, x: string): (r: seq<string>)
    ensures x !in s ==> r == s
    ensures x in s ==> r == s[..IndexOf(s, x)] + s[IndexOf(s, x) + 1..]
  {
    if s == [] then []
    else if s[0] == x then s[1..]
    else
      var r := [s[0]] + RemoveFirst(s[1..], x);
      assert x in s ==> s[..IndexOf(s, x)] == [s[0]] + s[1..][..IndexOf(s[1..], x)];
      r
  }

  lemma {:induction false} RemoveFirstMultiset(s: seq<string>, x: string)
    ensures multiset(RemoveFirst(s, x)) == multiset(s) - multiset{x}
  {
    if x in s {
      var i := IndexOf(s, x);
      assert s == s[..i] + [x] + s[i + 1..];
    } else {
      assert multiset(s)[x] == 0;
    }
  }

  lemma {:induction false} RemoveFirstKeepsNoDuplicates(s: seq<string>, x: string)
    requires NoDuplicates(s)
    ensures NoDuplicates(RemoveFirst(s, x)) && x !in RemoveFirst(s, x)
  {
    if x in s {
      var i := IndexOf(s, x);
      var r := RemoveFirst(s, x);
      assert |r| == |s| - 1;
      // position k of r is position k of s before i and k + 1 from i on
      forall k | 0 <= k < |r| ensures r[k] == s[if k < i then k else k + 1] { }
      forall a, b | 0 <= a < b < |r| ensures r[a] != r[b] {
        assert r[a] == s[if a < i then a else a + 1];
        assert r[b] == s[if b < i then b else b + 1];
      }
      forall k | 0 <= k < |r| ensures r[k] != x {
        assert r[k] == s[if k < i then k else k + 1];
      }
    }
  }

  lemma AppendKeepsNoDuplicates(s: seq<string>, x: string)
    requires NoDuplicates(s) && x !in s
    ensures NoDuplicates(s + [x])
  {
  }

  /** Removing an email just appended to a list that lacked it gives the
      list back. */
  lemma {:induction false} RemoveFirstAfterAppend(s: seq<string>, x: string)
    requires x !in s
    ensures RemoveFirst(s + [x], x) == s
  {
    var i := IndexOf(s + [x], x);
    assert i == |s|;
    assert (s + [x])[..i] == s;
  }

  // ---------------------------------------------------------------------
  // The handlers

  /** `after` lists the same activities as `before`; the one called `name`
      keeps its description, schedule and capacity, and every other one is
      untouched. */
  ghost predicate OnlyParticipantsChanged(before: Activities, after: Activities, name: string)
  {
    && after.Keys == before.Keys
    && name in before
    && after[name].description == before[name].description
    && after[name].schedule == before[name].schedule
    && after[name].maxParticipants == before[name].maxParticipants
    && (forall n | n in before && n != name :: after[n] == before[n])
  }

  /** signup_for_activity: appends the email at the end of the list, with no
      regard to the activity's capacity. */
  function SignUp(acts: Activities, name: string, email: string): (r: (Result<string>, Activities))
    ensures name !in acts ==> r == (Err(ActivityNotFound), acts)
    ensures name in acts && email in acts[name].participants ==> r == (Err(AlreadySignedUp), acts)
    ensures name in acts && email !in acts[name].participants ==>
      && r.0 == Ok("Signed up " + email + " for " + name)
      && OnlyParticipantsChanged(acts, r.1, name)
      && r.1[name].participants == acts[name].participants + [email]
  {
    if name !in acts then (Err(ActivityNotFound), acts)
    else
      var activity := acts[name];
      if email in activity.participants then (Err(AlreadySignedUp), acts)
      else
        (Ok("Signed up " + email + " for " + name),
         acts[name := activity.(participants := activity.participants + [email])])
  }

  /** unregister_from_activity: removes the email's first occurrence and
      keeps everyone else in order. */
  function Unregister(acts: Activities, name: string, email: string): (r: (Result<string>, Activities))
    ensures name !in acts ==> r == (Err(ActivityNotFound), acts)
    ensures name in acts && email !in acts[name].participants ==> r == (Err(NotSignedUp), acts)
    ensures name in acts && email in acts[name].participants ==>
      var s := acts[name].participants;
      && r.0 == Ok("Unregistered " + email + " from " + name)
      && OnlyParticipantsChanged(acts, r.1, name)
      && r.1[name].participants == s[..IndexOf(s, email)] + s[IndexOf(s, email) + 1..]
      && multiset(r.1[name].participants) == multiset(s) - multiset{email}
  {
    if name !in acts then (Err(ActivityNotFound), acts)
    else
      var activity := acts[name];
      if email !in activity.participants then (Err(NotSignedUp), acts)
      else
        RemoveFirstMultiset(activity.participants, email);
        (Ok("Unregistered " + email + " from " + name),
         acts[name := activity.(participants := RemoveFirst(activity.participants, email))])
  }

  /** get_activities: every activity with its record, in declaration order. */
  function Listing(acts: Activities, names: seq<string>): (r: seq<(string, Activity)>)
    requires forall k :: 0 <= k < |names| ==> names[k] in acts
    ensures |r| == |names|
    ensures forall k :: 0 <= k < |names| ==> r[k] == (names[k], acts[names[k]])
  {
    if names == [] then []
    else [(names[0], acts[names[0]])] + Listing(acts, names[1..])
  }

  // ---------------------------------------------------------------------
  // Properties of the roster

  lemma SeedOrderInSeed()
    ensures forall k :: 0 <= k < |SeedOrder| ==> SeedOrder[k] in Seed
  {
  }

  lemma SeedInSeedOrder()
    ensures forall name :: name in Seed ==> name in SeedOrder
  {
  }

  lemma SeedOrderDistinct()
    ensures forall a, b :: 0 <= a < b < |SeedOrder| ==> SeedOrder[a] != SeedOrder[b]
  {
  }

  lemma SeedInvariant()
    ensures RosterInvariant(Seed)
  {
  }

  lemma {:induction false} SignUpKeepsInvariant(acts: Activities, name: string, email: string)
    requires RosterInvariant(acts)
    ensures RosterInvariant(SignUp(acts, name, email).1)
  {
    if name in acts && email !in acts[name].participants {
      AppendKeepsNoDuplicates(acts[name].participants, email);
    }
  }

  lemma {:induction false} UnregisterKeepsInvariant(acts: Activities, name: string, email: string)
    requires RosterInvariant(acts)
    ensures RosterInvariant(Unregister(acts, name, email).1)
  {
    if name in acts && email in acts[name].participants {
      RemoveFirstKeepsNoDuplicates(acts[name].participants, email);
    }
  }

  /** Signing up and then unregistering the same email restores the roster. */
  lemma {:induction false} SignUpThenUnregister(acts: Activities, name: string, email: string)
    requires SignUp(acts, name, email).0.Ok?
    ensures Unregister(SignUp(acts, name, email).1, name, email) ==
            (Ok("Unregistered " + email + " from " + name), acts)
  {
    var a := acts[name];
    var signed := SignUp(acts, name, email).1;
    assert signed == acts[name := a.(participants := a.participants + [email])];
    RemoveFirstAfterAppend(a.participants, email);
    assert signed[name].(participants := RemoveFirst(signed[name].participants, email)) == a;
    assert signed[name := a] == acts;
  }

  /** On a roster without duplicates, dropping an email and signing it up
      again succeeds and moves it to the end of the list. */
  lemma {:induction false} UnregisterThenSignUp(acts: Activities, name: string, email: string)
    requires RosterInvariant(acts)
    requires Unregister(acts, name, email).0.Ok?
    ensures var back := SignUp(Unregister(acts, name, email).1, name, email);
            && back.0 == Ok("Signed up " + email + " for " + name)
            && back.1[name].participants == RemoveFirst(acts[name].participants, email) + [email]
            && multiset(back.1[name].participants) == multiset(acts[name].participants)
  {
    var s := acts[name].participants;
    RemoveFirstKeepsNoDuplicates(s, email);
    RemoveFirstMultiset(s, email);
  }

  /** A second signup of the same email fails. */
  lemma SignUpTwiceFails(acts: Activities, name: string, email: string)
    requires SignUp(acts, name, email).0.Ok?
    ensures SignUp(SignUp(acts, name, email).1, name, email).0 == Err(AlreadySignedUp)
  {
  }

  /** On a roster without duplicates a second unregister of the same email
      fails. */
  lemma {:induction false} UnregisterTwiceFails(acts: Activities, name: string, email: string)
    requires RosterInvariant(acts)
    requires Unregister(acts, name, email).0.Ok?
    ensures Unregister(Unregister(acts, name, email).1, name, email).0 == Err(NotSignedUp)
  {
    RemoveFirstKeepsNoDuplicates(acts[name].participants, email);
  }

  /** Without the invariant one unregister is not enough: an email listed
      twice stays after one removal. */
  lemma UnregisterLeavesDuplicate()
    ensures var acts := map["Chess Club" := Activity("", "", 12, ["x@m.edu", "x@m.edu"])];
            Unregister(Unregister(acts, "Chess Club", "x@m.edu").1, "Chess Club", "x@m.edu").0.Ok?
  {
    var s := ["x@m.edu", "x@m.edu"];
    assert RemoveFirst(s, "x@m.edu") == ["x@m.edu"];
  }

  /** Signup never consults the capacity: a full activity still takes a new
      email and goes over its limit. */
  lemma SignUpIgnoresCapacity(acts: Activities, name: string, email: string)
    requires name in acts && email !in acts[name].participants
    requires |acts[name].participants| >= acts[name].maxParticipants
    ensures SignUp(acts, name, email).0.Ok?
    ensures |SignUp(acts, name, email).1[name].participants| > acts[name].maxParticipants
  {
  }

  /** Signing up twice and unregistering twice: the first of each succeeds,
      the second is refused, and the roster ends as it began. */
  lemma {:induction false} SignUpUnregisterSequence(acts: Activities, name: string, email: string)
    requires name in acts && email !in acts[name].participants
    ensures var one := SignUp(acts, name, email);
            var two := SignUp(one.1, name, email);
            var three := Unregister(two.1, name, email);
            var four := Unregister(three.1, name, email);
            && one.0 == Ok("Signed up " + email + " for " + name)
            && one.1[name].participants == acts[name].participants + [email]
            && two == (Err(AlreadySignedUp), one.1)
            && three == (Ok("Unregistered " + email + " from " + name), acts)
            && four == (Err(NotSignedUp), acts)
  {
    SignUpThenUnregister(acts, name, email);
  }

  /** On the starting roster, a new student signs up for Chess Club, is
      refused a second time, drops out, and is refused a second drop. */
  lemma FreshRosterScenario()
    ensures var one := SignUp(Seed, "Chess Club", "new@m.edu");
            var two := SignUp(one.1, "Chess Club", "new@m.edu");
            var three := Unregister(two.1, "Chess Club", "new@m.edu");
            var four := Unregister(three.1, "Chess Club", "new@m.edu");
            && one.0 == Ok("Signed up new@m.edu for Chess Club")
            && one.1["Chess Club"].participants == ["michael@mergington.edu", "daniel@mergington.edu", "new@m.edu"]
            && two.0 == Err(AlreadySignedUp)
            && three.0 == Ok("Unregistered new@m.edu from Chess Club")
            && three.1 == Seed
            && four.0 == Err(NotSignedUp)
  {
    ChessClubSeed();
    SignUpUnregisterSequence(Seed, "Chess Club", "new@m.edu");
    ScenarioMessages();
  }

  lemma ChessClubSeed()
    ensures "Chess Club" in Seed
    ensures Seed["Chess Club"].participants == ["michael@mergington.edu", "daniel@mergington.edu"]
    ensures "new@m.edu" !in Seed["Chess Club"].participants
  {
  }

  lemma ScenarioMessages()
    ensures "Signed up " + "new@m.edu" + " for " + "Chess Club" == "Signed up new@m.edu for Chess Club"
    ensures "Unregistered " + "new@m.edu" + " from " + "Chess Club" == "Unregistered new@m.edu from Chess Club"
  {
  }
}
