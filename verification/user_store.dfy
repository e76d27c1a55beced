/** The local profile store: a table from email to profile kept in browser
    storage, the email of the active session, and the active user. Storage is
    a map here; the service's reactive write-back is the explicit `Sync` step
    that follows every change of the active user. */
module UserStore {
  import opened Options
  import opened Records

  /** The stored table, the active user, and the stored session email. */
  datatype Store = Store(db: map<string, Profile>, user: Option<Profile>, session: Option<string>)

  /** The `{ success, message }` answer of `register` and `login`. */
  datatype Outcome = Success | Failure(message: string)

  const DuplicateEmail: string := "An account with this email already exists."
  const MissingFields: string := "Name, email, and password are required."
  const ShortPassword: string := "Password must be at least 6 characters long."
  const NoAccount: string := "No account found with this email."
  const WrongPassword: string := "Incorrect password."
  const DefaultRole: string := "Job Seeker"
  const MinPasswordLength: nat := 6

  /** Every record is stored under its own email. */
  predicate KeysMatch(db: map<string, Profile>) {
    forall k :: k in db ==> db[k].email == k
  }

  /** Storage agrees with the active user: its record is stored under its
      email and the session remembers that email; with no active user the
      session is forgotten. */
  predicate Synced(st: Store) {
    match st.user
    case None => st.session.None?
    case Some(u) => u.email in st.db && st.db[u.email] == u && st.session == Some(u.email)
  }

  /** The write-back effect, run after every change of the active user. */
  function Sync(st: Store): (r: Store)
    ensures r.user == st.user && Synced(r)
    ensures st.user.None? ==> r.db == st.db
    ensures st.user.Some? ==> r.db.Keys == st.db.Keys + {st.user.value.email}
    ensures st.user.Some? ==> forall k :: k in st.db && k != st.user.value.email ==> r.db[k] == st.db[k]
    ensures KeysMatch(st.db) ==> KeysMatch(r.db)
  {
    match st.user
    case None => st.(session := None)
    case Some(u) => Store(st.db[u.email := u], st.user, Some(u.email))
  }

  /** Syncing a store that already agrees with storage changes nothing. */
  lemma SyncIdempotent(st: Store)
    ensures Synced(st) ==> Sync(st) == st
    ensures Sync(Sync(st)) == Sync(st)
  {
    if Synced(st) && st.user.Some? {
      assert st.db[st.user.value.email := st.user.value] == st.db;
    }
  }

  /** Session restore at construction, followed by the first run of the effect:
      the active user is the record stored under the remembered email, if the
      email is non-empty and has a record. */
  function Restore(db: map<string, Profile>, session: Option<string>): (r: Store)
    ensures Synced(r)
    ensures r.user.Some? <==> session.Some? && session.value != "" && session.value in db
    ensures r.user.Some? ==> r.user.value == db[session.value]
    ensures KeysMatch(db) ==> r.db == db && KeysMatch(r.db)
  {
    var user := if session.Some? && session.value != "" && session.value in db then Some(db[session.value]) else None;
    Sync(Store(db, user, session))
  }

  /** The profile `register` creates. */
  function NewProfile(name: string, email: string, password: string, now: int): Profile {
    Profile(
      name, email, Some(password), DefaultRole, [],
      Some(ResumeData(name, email, "", [], [], "")),
      [], None, [], [], now)
  }

  /** The checks `register` applies, in order, before creating an account. */
  function RegisterCheck(db: map<string, Profile>, name: string, email: string, password: string): Outcome {
    if email in db then Failure(DuplicateEmail)
    else if name == "" || email == "" || password == "" then Failure(MissingFields)
    else if |password| < MinPasswordLength then Failure(ShortPassword)
    else Success
  }

  /** `register`: refuse a taken email first, then missing fields, then a
      short password; otherwise make a fresh profile the active user. */
  function Register(st: Store, name: string, email: string, password: string, now: int): (r: (Store, Outcome))
    ensures r.1.Success? <==> email !in st.db && name != "" && email != "" && password != "" && |password| >= 6
    ensures email in st.db ==> r.1 == Failure(DuplicateEmail)
    ensures email !in st.db && (name == "" || email == "" || password == "") ==> r.1 == Failure(MissingFields)
    ensures email !in st.db && name != "" && email != "" && password != "" && |password| < 6
      ==> r.1 == Failure(ShortPassword)
    ensures r.1.Failure? ==> r.0 == st
    ensures r.1.Success? ==> r.0.db == st.db && r.0.user.Some? && WellFormedNew(r.0.user.value, name, email, password)
  {
    var outcome := RegisterCheck(st.db, name, email, password);
    if outcome.Failure? then (st, outcome)
    else (st.(user := Some(NewProfile(name, email, password, now))), Success)
  }

  /** What a freshly registered profile looks like. */
  predicate WellFormedNew(p: Profile, name: string, email: string, password: string) {
    && p.name == name && p.email == email && p.password == Some(password)
    && p.role == "Job Seeker"
    && p.skills == [] && p.savedJobs == [] && p.chatSessions == [] && p.savedCoverLetters == []
    && p.roadmap.None?
    && p.resumeData.Some? && p.resumeData.value.fullName == name && p.resumeData.value.email == email
  }

  /** `login`: an unknown email and a wrong password fail differently; on
      success the active user is the stored record itself. */
  function Login(st: Store, email: string, password: string): (r: (Store, Outcome))
    ensures email !in st.db ==> r == (st, Failure(NoAccount))
    ensures email in st.db && st.db[email].password != Some(password) ==> r == (st, Failure(WrongPassword))
    ensures r.1.Success? <==> email in st.db && st.db[email].password == Some(password)
    ensures r.1.Success? ==> r.0 == st.(user := Some(st.db[email]))
  {
    if email !in st.db then (st, Failure(NoAccount))
    else if st.db[email].password != Some(password) then (st, Failure(WrongPassword))
    else (st.(user := Some(st.db[email])), Success)
  }

  /** `logout`: no active user. */
  function Logout(st: Store): (r: Store)
    ensures r.user.None? && r.db == st.db
    ensures Sync(r).session.None?
  {
    st.(user := None)
  }

  /** `updateResume`. */
  function UpdateResume(st: Store, data: Option<ResumeData>): (r: Store)
    ensures r.db == st.db && r.session == st.session && r.user.Some? == st.user.Some?
    ensures st.user.Some? ==> r.user.value.resumeData == data
    ensures st.user.Some? ==> r.user.value.(resumeData := st.user.value.resumeData) == st.user.value
  {
    match st.user
    case None => st
    case Some(u) => st.(user := Some(u.(resumeData := data)))
  }

  /** `updateSavedJobs`. */
  function UpdateSavedJobs(st: Store, jobs: seq<Job>): (r: Store)
    ensures r.db == st.db && r.session == st.session && r.user.Some? == st.user.Some?
    ensures st.user.Some? ==> r.user.value.savedJobs == jobs
    ensures st.user.Some? ==> r.user.value.(savedJobs := st.user.value.savedJobs) == st.user.value
  {
    match st.user
    case None => st
    case Some(u) => st.(user := Some(u.(savedJobs := jobs)))
  }

  /** `updateChatSessions`. */
  function UpdateChatSessions(st: Store, sessions: seq<ChatSession>): (r: Store)
    ensures r.db == st.db && r.session == st.session && r.user.Some? == st.user.Some?
    ensures st.user.Some? ==> r.user.value.chatSessions == sessions
    ensures st.user.Some? ==> r.user.value.(chatSessions := st.user.value.chatSessions) == st.user.value
  {
    match st.user
    case None => st
    case Some(u) => st.(user := Some(u.(chatSessions := sessions)))
  }

  /** `updateRoadmap`. */
  function UpdateRoadmap(st: Store, roadmap: Option<Roadmap>): (r: Store)
    ensures r.db == st.db && r.session == st.session && r.user.Some? == st.user.Some?
    ensures st.user.Some? ==> r.user.value.roadmap == roadmap
    ensures st.user.Some? ==> r.user.value.(roadmap := st.user.value.roadmap) == st.user.value
  {
    match st.user
    case None => st
    case Some(u) => st.(user := Some(u.(roadmap := roadmap)))
  }

  /** `updateSavedCoverLetters`. */
  function UpdateSavedCoverLetters(st: Store, letters: seq<CoverLetter>): (r: Store)
    ensures r.db == st.db && r.session == st.session && r.user.Some? == st.user.Some?
    ensures st.user.Some? ==> r.user.value.savedCoverLetters == letters
    ensures st.user.Some? ==> r.user.value.(savedCoverLetters := st.user.value.savedCoverLetters) == st.user.value
  {
    match st.user
    case None => st
    case Some(u) => st.(user := Some(u.(savedCoverLetters := letters)))
  }

  /** A failed registration with a taken email, followed by the write-back,
      leaves the existing record exactly as it was. */
  lemma DuplicateRegisterKeepsRecord(st: Store, name: string, email: string, password: string, now: int)
    requires Synced(st) && email in st.db
    ensures Sync(Register(st, name, email, password, now).0) == st
  {
    SyncIdempotent(st);
  }

  /** A failed login, followed by the write-back, changes nothing in a synced store. */
  lemma FailedLoginChangesNothing(st: Store, email: string, password: string)
    requires Synced(st)
    requires !(email in st.db && st.db[email].password == Some(password))
    ensures Sync(Login(st, email, password).0) == st
  {
    SyncIdempotent(st);
  }

  /** A successful registration is persisted: after the write-back the new
      record is stored under its email and the session remembers it, while
      every other record is untouched. */
  lemma RegisterPersists(st: Store, name: string, email: string, password: string, now: int)
    requires Register(st, name, email, password, now).1.Success?
    ensures
      var r := Sync(Register(st, name, email, password, now).0);
      && email in r.db && WellFormedNew(r.db[email], name, email, password)
      && r.session == Some(email)
      && r.db.Keys == st.db.Keys + {email}
      && forall k :: k in st.db ==> r.db[k] == st.db[k]
  {
  }

  /** Logging in and syncing leaves the table as it was when storage agrees
      with the active user and every record is stored under its own email. */
  lemma LoginKeepsTable(st: Store, email: string, password: string)
    requires Synced(st) && KeysMatch(st.db)
    ensures Sync(Login(st, email, password).0).db == st.db
  {
    var r := Login(st, email, password);
    if r.1.Success? {
      assert st.db[email := st.db[email]] == st.db;
    } else {
      SyncIdempotent(st);
    }
  }
}
