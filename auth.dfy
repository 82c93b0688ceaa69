/** The teacher session check. The teacher table of `users.json` is passed in as
    a map, and the password-hash comparison as a function parameter. */
module Auth {
  import opened Http

  /** One entry of the `teachers` table; `password` holds the stored hash. */
  datatype Teacher = Teacher(password: string)

  type Teachers = map<string, Teacher>

  /** A password-hash checker: stored hash, candidate password, verdict. */
  type HashCheck = (string, string) -> bool

  const InvalidCredentialsDetail := "Invalid credentials"

  /** `verify_teacher`: a known username whose stored hash accepts the password. */
  function VerifyTeacher(teachers: Teachers, checkHash: HashCheck, username: string, password: string): (ok: bool)
    ensures ok <==> username in teachers && checkHash(teachers[username].password, password)
  {
    if username !in teachers then false
    else checkHash(teachers[username].password, password)
  }

  /** `get_current_user`: the `session` cookie names the user; it is accepted only
      when it is present, non-empty and a key of the teacher table. */
  function CurrentUser(teachers: Teachers, session: Option<string>): (r: Option<string>)
    ensures r.Some? <==> session.Some? && session.value != "" && session.value in teachers
    ensures r.Some? ==> r == session && r.value != ""
  {
    if session.None? || session.value == "" then None
    else if session.value in teachers then session
    else None
  }

  /** What `login` answers: the value it stores in the `session` cookie, or the 401 it raises. */
  datatype LoginResult = Authenticated(session: string) | Rejected(status: nat, detail: string)

  /** `login`: on verified credentials the session cookie becomes the username. */
  function Login(teachers: Teachers, checkHash: HashCheck, username: string, password: string): (r: LoginResult)
    ensures r.Authenticated? <==> username in teachers && checkHash(teachers[username].password, password)
    ensures r.Authenticated? ==> r.session == username
    ensures r.Rejected? ==> r == Rejected(Unauthorized, InvalidCredentialsDetail)
  {
    if VerifyTeacher(teachers, checkHash, username, password) then Authenticated(username)
    else Rejected(Unauthorized, InvalidCredentialsDetail)
  }

  /** For an unknown username the verdict is false whatever the hash checker says,
      so the checker is never consulted. */
  lemma UnknownTeacherIgnoresHash(teachers: Teachers, c1: HashCheck, c2: HashCheck, username: string, password: string)
    requires username !in teachers
    ensures !VerifyTeacher(teachers, c1, username, password)
    ensures VerifyTeacher(teachers, c1, username, password) == VerifyTeacher(teachers, c2, username, password)
  {
  }

  /** The cookie a successful login sets is recognised by the session check,
      unless the username is empty: an empty cookie is never a session. Both
      requests read `users.json` afresh, so one `teachers` table for both means
      the file did not change in between. */
  lemma LoginEstablishesSession(teachers: Teachers, checkHash: HashCheck, username: string, password: string)
    requires Login(teachers, checkHash, username, password).Authenticated?
    ensures var cookie := Some(Login(teachers, checkHash, username, password).session);
            CurrentUser(teachers, cookie) == if username == "" then None else cookie
  {
  }
}
