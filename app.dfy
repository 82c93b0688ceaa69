/** The service's mutable state: the module-level `activities` dictionary and
    the handlers that read and update it in place. */
module App {
  import opened Http
  import opened Rosters
  import opened Activities
  import Auth

  class Registry {
    /** The `activities` dictionary. */
    var activities: Database
    /** Its keys in insertion order, the order in which it is serialised. */
    var names: seq<string>

    /** The keys are listed once each, and no roster holds an address twice. */
    ghost predicate Valid()
      reads this
    {
      && (forall i, j :: 0 <= i < j < |names| ==> names[i] != names[j])
      && activities.Keys == set n | n in names
      && NoDuplicates(activities)
    }

    /** The service starts from the seeded database. */
    constructor ()
      ensures Valid()
      ensures activities == Seed() && names == SeedNames()
    {
      activities := Seed();
      names := SeedNames();
      SeedHasNoDuplicates();
    }

    /** `get_activities`: every activity, in insertion order. */
    function GetActivities(): (r: seq<(string, Activity)>)
      reads this
      requires Valid()
      ensures |r| == |names|
      ensures (set i | 0 <= i < |r| :: r[i].0) == activities.Keys
      ensures forall i :: 0 <= i < |r| ==> r[i].0 == names[i] && r[i].1 == activities[names[i]]
    {
      var r := Listing(names, activities);
      assert forall n :: n in names ==> exists i :: 0 <= i < |r| && r[i].0 == n by {
        forall n | n in names
          ensures exists i :: 0 <= i < |r| && r[i].0 == n
        {
          var i :| 0 <= i < |names| && names[i] == n;
          assert r[i].0 == n;
        }
      }
      r
    }

    /** `signup_for_activity`, given the result of the session check. */
    method Signup(currentUser: Option<string>, activityName: string, email: string) returns (r: Response)
      requires Valid()
      modifies this
      ensures Valid()
      ensures Step(r, activities) == SignupStep(old(activities), currentUser, activityName, email)
      ensures names == old(names)
    {
      SignupKeepsNoDuplicates(activities, currentUser, activityName, email);
      if !LoggedIn(currentUser) {
        return Err(Unauthorized, NotLoggedInDetail);
      }
      if activityName !in activities {
        return Err(NotFound, ActivityNotFoundDetail);
      }
      var activity := activities[activityName];
      if email in activity.participants {
        return Err(BadRequest, AlreadySignedUpDetail);
      }
      activities := activities[activityName := activity.(participants := activity.participants + [email])];
      r := Ok(SignedUpMessage(email, activityName));
    }

    /** `signup_for_activity` as the route runs it: the session check first. */
    method SignupWithSession(teachers: Auth.Teachers, session: Option<string>, activityName: string, email: string)
      returns (r: Response)
      requires Valid()
      modifies this
      ensures Valid()
      ensures Step(r, activities) == SignupStep(old(activities), Auth.CurrentUser(teachers, session), activityName, email)
      ensures names == old(names)
    {
      var currentUser := Auth.CurrentUser(teachers, session);
      r := Signup(currentUser, activityName, email);
    }

    /** `unregister_from_activity`. */
    method Unregister(activityName: string, email: string) returns (r: Response)
      requires Valid()
      modifies this
      ensures Valid()
      ensures Step(r, activities) == UnregisterStep(old(activities), activityName, email)
      ensures names == old(names)
    {
      UnregisterKeepsNoDuplicates(activities, activityName, email);
      if activityName !in activities {
        return Err(NotFound, ActivityNotFoundDetail);
      }
      var activity := activities[activityName];
      if email !in activity.participants {
        return Err(BadRequest, NotSignedUpDetail);
      }
      activities := activities[activityName := activity.(participants := RemoveFirst(activity.participants, email))];
      r := Ok(UnregisteredMessage(email, activityName));
    }
  }

  /** Through the route, a signup can succeed only with a cookie naming a teacher;
      any other cookie is answered with 401 before the activity or address is looked at. */
  lemma SignupNeedsTeacherSession(teachers: Auth.Teachers, session: Option<string>, db: Database, name: string, email: string)
    ensures var s := SignupStep(db, Auth.CurrentUser(teachers, session), name, email);
            && (s.response.Ok? ==> session.Some? && session.value in teachers)
            && (!(session.Some? && session.value != "" && session.value in teachers) ==>
                  s == Step(Err(Unauthorized, NotLoggedInDetail), db))
  {
  }
}
