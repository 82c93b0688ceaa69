/** The in-memory activity database and the state transitions its two handlers
    perform on it, stated as functions of the database before the request. */
module Activities {
  import opened Http
  import opened Rosters

  /** One record of the `activities` dictionary. `maxParticipants` is stored and
      returned, but no operation ever compares it with the roster length. */
  datatype Activity = Activity(
    description: string,
    schedule: string,
    maxParticipants: nat,
    participants: seq<string>)

  type Database = map<string, Activity>

  /** The reply of a handler together with the database it leaves behind. */
  datatype Step = Step(response: Response, activities: Database)

  const NotLoggedInDetail := "Please log in as a teacher to register students"
  const ActivityNotFoundDetail := "Activity not found"
  const AlreadySignedUpDetail := "Student is already signed up"
  const NotSignedUpDetail := "Student is not signed up for this activity"

  function SignedUpMessage(email: string, name: string): string
  {
    "Signed up " + email + " for " + name
  }

  function UnregisteredMessage(email: string, name: string): string
  {
    "Unregistered " + email + " from " + name
  }

  /** Python truthiness of the `current_user` dependency: `None` and `""` are both falsy. */
  predicate LoggedIn(currentUser: Option<string>)
  {
    currentUser.Some? && currentUser.value != ""
  }

  /** Every roster in the database is free of duplicate addresses. */
  ghost predicate NoDuplicates(db: Database)
  {
    forall n :: n in db ==> Distinct(db[n].participants)
  }

  /** POST /activities/{name}/signup?email=...: the checks run in the order
      login (401), activity exists (404), not yet listed (400); only a request
      passing all three appends the address to that one roster. */
  function SignupStep(db: Database, currentUser: Option<string>, name: string, email: string): (r: Step)
    ensures !LoggedIn(currentUser) ==> r == Step(Err(Unauthorized, NotLoggedInDetail), db)
    ensures LoggedIn(currentUser) && name !in db ==> r == Step(Err(NotFound, ActivityNotFoundDetail), db)
    ensures LoggedIn(currentUser) && name in db && email in db[name].participants ==>
              r == Step(Err(BadRequest, AlreadySignedUpDetail), db)
    ensures r.response.Ok? <==> LoggedIn(currentUser) && name in db && email !in db[name].participants
    ensures r.response.Err? ==> r.activities == db
    ensures r.response.Ok? ==>
              && r.response.message == SignedUpMessage(email, name)
              && r.activities.Keys == db.Keys
              && r.activities[name].participants == db[name].participants + [email]
              && |r.activities[name].participants| == |db[name].participants| + 1
              && r.activities[name].description == db[name].description
              && r.activities[name].schedule == db[name].schedule
              && r.activities[name].maxParticipants == db[name].maxParticipants
              && (forall other :: other in db && other != name ==> r.activities[other] == db[other])
  {
    if !LoggedIn(currentUser) then
      Step(Err(Unauthorized, NotLoggedInDetail), db)
    else if name !in db then
      Step(Err(NotFound, ActivityNotFoundDetail), db)
    else if email in db[name].participants then
      Step(Err(BadRequest, AlreadySignedUpDetail), db)
    else
      var a := db[name];
      Step(Ok(SignedUpMessage(email, name)), db[name := a.(participants := a.participants + [email])])
  }

  /** DELETE /activities/{name}/unregister?email=...: no login is consulted; the
      checks are activity exists (404) and address listed (400), and a request
      passing both removes the first occurrence of the address. */
  function UnregisterStep(db: Database, name: string, email: string): (r: Step)
    ensures name !in db ==> r == Step(Err(NotFound, ActivityNotFoundDetail), db)
    ensures name in db && email !in db[name].participants ==>
              r == Step(Err(BadRequest, NotSignedUpDetail), db)
    ensures r.response.Ok? <==> name in db && email in db[name].participants
    ensures r.response.Err? ==> r.activities == db
    ensures r.response.Ok? ==>
              && r.response.message == UnregisteredMessage(email, name)
              && r.activities.Keys == db.Keys
              && r.activities[name].participants == RemoveFirst(db[name].participants, email)
              && |r.activities[name].participants| == |db[name].participants| - 1
              && multiset(r.activities[name].participants) == multiset(db[name].participants) - multiset{email}
              && r.activities[name].description == db[name].description
              && r.activities[name].schedule == db[name].schedule
              && r.activities[name].maxParticipants == db[name].maxParticipants
              && (forall other :: other in db && other != name ==> r.activities[other] == db[other])
  {
    if name !in db then
      Step(Err(NotFound, ActivityNotFoundDetail), db)
    else if email !in db[name].participants then
      Step(Err(BadRequest, NotSignedUpDetail), db)
    else
      var a := db[name];
      Step(Ok(UnregisteredMessage(email, name)), db[name := a.(participants := RemoveFirst(a.participants, email))])
  }

  /** Signup never introduces a duplicate address. */
  lemma SignupKeepsNoDuplicates(db: Database, currentUser: Option<string>, name: string, email: string)
    requires NoDuplicates(db)
    ensures NoDuplicates(SignupStep(db, currentUser, name, email).activities)
  {
    var r := SignupStep(db, currentUser, name, email);
    if r.response.Ok? {
      AppendKeepsDistinct(db[name].participants, email);
    }
  }

  /** Unregister never introduces a duplicate address; on a duplicate-free
      database a successful unregister leaves the address nowhere in that roster. */
  lemma UnregisterKeepsNoDuplicates(db: Database, name: string, email: string)
    requires NoDuplicates(db)
    ensures NoDuplicates(UnregisterStep(db, name, email).activities)
    ensures UnregisterStep(db, name, email).response.Ok? ==>
              email !in UnregisterStep(db, name, email).activities[name].participants
  {
    var r := UnregisterStep(db, name, email);
    if r.response.Ok? {
      RemoveKeepsDistinct(db[name].participants, email);
    }
  }

  /** A successful signup followed by an unregister of the same address from the
      same activity succeeds and restores the database exactly. */
  lemma UnregisterUndoesSignup(db: Database, currentUser: Option<string>, name: string, email: string)
    requires SignupStep(db, currentUser, name, email).response.Ok?
    ensures UnregisterStep(SignupStep(db, currentUser, name, email).activities, name, email)
              == Step(Ok(UnregisteredMessage(email, name)), db)
  {
    var after := SignupStep(db, currentUser, name, email).activities;
    RemoveUndoesAppend(db[name].participants, email);
    var back := UnregisterStep(after, name, email).activities;
    assert back[name] == db[name];
    assert back == db;
  }

  /** Signing up the same address twice: the second request is refused with 400
      and changes nothing. */
  lemma SecondSignupRefused(db: Database, currentUser: Option<string>, name: string, email: string)
    requires SignupStep(db, currentUser, name, email).response.Ok?
    ensures var after := SignupStep(db, currentUser, name, email).activities;
            SignupStep(after, currentUser, name, email) == Step(Err(BadRequest, AlreadySignedUpDetail), after)
  {
    var after := SignupStep(db, currentUser, name, email).activities;
    assert after[name].participants[|db[name].participants|] == email;
  }

  /** On a duplicate-free database, unregistering the same address twice: the
      second request is refused with 400 and changes nothing. */
  lemma SecondUnregisterRefused(db: Database, name: string, email: string)
    requires NoDuplicates(db)
    requires UnregisterStep(db, name, email).response.Ok?
    ensures var after := UnregisterStep(db, name, email).activities;
            UnregisterStep(after, name, email) == Step(Err(BadRequest, NotSignedUpDetail), after)
  {
    UnregisterKeepsNoDuplicates(db, name, email);
  }

  /** The dictionary's entries in insertion order, as `get_activities` serialises them. */
  function Listing(names: seq<string>, db: Database): (r: seq<(string, Activity)>)
    requires forall n :: n in names ==> n in db
    ensures |r| == |names|
    ensures forall i :: 0 <= i < |r| ==> r[i].0 == names[i] && r[i].1 == db[names[i]]
  {
    if names == [] then []
    else [(names[0], db[names[0]])] + Listing(names[1..], db)
  }

  /** The activity names of the seeded database, in declaration order. */
  function SeedNames(): seq<string>
  {
    ["Chess Club", "Programming Class", "Gym Class", "Soccer Team", "Basketball Team",
     "Art Club", "Drama Club", "Math Club", "Debate Team"]
  }

  /** The database the service starts with. */
  function Seed(): (db: Database)
    ensures db.Keys == set n | n in SeedNames()
  {
    map[
      "Chess Club" := Activity(
        "Learn strategies and compete in chess tournaments",
        "Fridays, 3:30 PM - 5:00 PM", 12,
        ["michael@mergington.edu", "daniel@mergington.edu"]),
      "Programming Class" := Activity(
        "Learn programming fundamentals and build software projects",
        "Tuesdays and Thursdays, 3:30 PM - 4:30 PM", 20,
        ["emma@mergington.edu", "sophia@mergington.edu"]),
      "Gym Class" := Activity(
        "Physical education and sports activities",
        "Mondays, Wednesdays, Fridays, 2:00 PM - 3:00 PM", 30,
        ["john@mergington.edu", "olivia@mergington.edu"]),
      "Soccer Team" := Activity(
        "Join the school soccer team and compete in matches",
        "Tuesdays and Thursdays, 4:00 PM - 5:30 PM", 22,
        ["liam@mergington.edu", "noah@mergington.edu"]),
      "Basketball Team" := Activity(
        "Practice and play basketball with the school team",
        "Wednesdays and Fridays, 3:30 PM - 5:00 PM", 15,
        ["ava@mergington.edu", "mia@mergington.edu"]),
      "Art Club" := Activity(
        "Explore your creativity through painting and drawing",
        "Thursdays, 3:30 PM - 5:00 PM", 15,
        ["amelia@mergington.edu", "harper@mergington.edu"]),
      "Drama Club" := Activity(
        "Act, direct, and produce plays and performances",
        "Mondays and Wednesdays, 4:00 PM - 5:30 PM", 20,
        ["ella@mergington.edu", "scarlett@mergington.edu"]),
      "Math Club" := Activity(
        "Solve challenging problems and participate in math competitions",
        "Tuesdays, 3:30 PM - 4:30 PM", 10,
        ["james@mergington.edu", "benjamin@mergington.edu"]),
      "Debate Team" := Activity(
        "Develop public speaking and argumentation skills",
        "Fridays, 4:00 PM - 5:30 PM", 12,
        ["charlotte@mergington.edu", "henry@mergington.edu"])
    ]
  }

  /** The seeded rosters are duplicate-free, so the invariant holds from the start. */
  lemma SeedHasNoDuplicates()
    ensures NoDuplicates(Seed())
  {
    forall n | n in Seed()
      ensures Distinct(Seed()[n].participants)
    {
      var p := Seed()[n].participants;
      assert |p| == 2 && p[0] != p[1];
    }
  }
}
