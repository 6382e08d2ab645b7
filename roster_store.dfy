/** The process-wide activity roster: one object owning the map of
    activities, whose handlers update participant lists in place. Each
    handler is proved to leave the roster exactly as the corresponding
    function of module Roster says, and the roster keeps its activities and
    never lists an email twice in one activity. */
module RosterStore {
  import opened Outcomes
  import Roster

  class ActivityRoster {
    var activities: Roster.Activities

    ghost predicate Valid()
      reads this
    {
      activities.Keys == Roster.Seed.Keys && Roster.RosterInvariant(activities)
    }

    constructor ()
      ensures Valid() && activities == Roster.Seed
    {
      activities := Roster.Seed;
      Roster.SeedInvariant();
    }

    /** get_activities: every activity and its record, in declaration order. */
    function GetActivities(): (r: seq<(string, Roster.Activity)>)
      reads this
      requires Valid()
      ensures |r| == |Roster.SeedOrder|
      ensures forall k :: 0 <= k < |r| ==> r[k].0 == Roster.SeedOrder[k] && r[k].1 == activities[r[k].0]
      ensures forall name :: name in activities ==> exists k :: 0 <= k < |r| && r[k].0 == name
      ensures forall a, b :: 0 <= a < b < |r| ==> r[a].0 != r[b].0
    {
      Roster.SeedOrderInSeed();
      Roster.SeedInSeedOrder();
      Roster.SeedOrderDistinct();
      var r := Roster.Listing(activities, Roster.SeedOrder);
      assert forall name :: name in activities ==> exists k :: 0 <= k < |r| && r[k].0 == name by {
        forall name | name in activities ensures exists k :: 0 <= k < |r| && r[k].0 == name {
          var k :| 0 <= k < |Roster.SeedOrder| && Roster.SeedOrder[k] == name;
          assert r[k].0 == name;
        }
      }
      r
    }

    method SignupForActivity(activityName: string, email: string) returns (r: Result<string>)
      requires Valid()
      modifies this
      ensures Valid()
      ensures (r, activities) == Roster.SignUp(old(activities), activityName, email)
    {
      if activityName !in activities {
        return Err(ActivityNotFound);
      }
      var activity := activities[activityName];
      if email in activity.participants {
        return Err(AlreadySignedUp);
      }
      Roster.SignUpKeepsInvariant(activities, activityName, email);
      activities := activities[activityName := activity.(participants := activity.participants + [email])];
      r := Ok("Signed up " + email + " for " + activityName);
    }

    method UnregisterFromActivity(activityName: string, email: string) returns (r: Result<string>)
      requires Valid()
      modifies this
      ensures Valid()
      ensures (r, activities) == Roster.Unregister(old(activities), activityName, email)
    {
      if activityName !in activities {
        return Err(ActivityNotFound);
      }
      var activity := activities[activityName];
      if email !in activity.participants {
        return Err(NotSignedUp);
      }
      Roster.UnregisterKeepsInvariant(activities, activityName, email);
      activities := activities[activityName := activity.(participants := Roster.RemoveFirst(activity.participants, email))];
      r := Ok("Unregistered " + email + " from " + activityName);
    }
  }
}
