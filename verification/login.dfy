/** The login page: a form that is either in login or in register view,
    checks its own fields before handing them to the profile store, and
    shows the store's message, or a fixed fallback, when the store refuses.
    Navigation to the dashboard on success is left to the router. */
module LoginForm {
  import opened Options
  import UserStore

  datatype View = LoginView | RegisterView

  /** The form's fields and the error shown under it. */
  datatype Form = Form(view: View, error: Option<string>, name: string, email: string, password: string)

  const EnterCredentials: string := "Please enter your email and password."
  const LoginFallback: string := "Login failed. Please check your credentials."
  const FillAllFields: string := "Please fill in all fields."
  const PasswordTooShort: string := "Password must be at least 6 characters long."
  const RegisterFallback: string := "An unknown error occurred during registration."

  /** `toggleView`: the chosen view, no error and empty fields. */
  function ToggleView(f: Form, view: View): (r: Form)
    ensures r.view == view && r.error.None?
    ensures r.name == "" && r.email == "" && r.password == ""
  {
    Form(view, None, "", "", "")
  }

  /** `result.message || fallback`: an empty message counts as none. */
  function ErrorFrom(outcome: UserStore.Outcome, fallback: string): (r: Option<string>)
    requires outcome.Failure?
    ensures fallback != "" ==> r.Some? && r.value != ""
    ensures outcome.message != "" ==> r == Some(outcome.message)
  {
    Some(if outcome.message != "" then outcome.message else fallback)
  }

  /** `onLogin`: an empty email or password is refused without asking the
      store; otherwise the store decides, and its refusal is shown. */
  function OnLogin(f: Form, st: UserStore.Store): (r: (Form, UserStore.Store))
    ensures f.email == "" || f.password == "" ==> r == (f.(error := Some(EnterCredentials)), st)
    ensures r.0.error.None? <==>
      f.email != "" && f.password != "" && f.email in st.db && st.db[f.email].password == Some(f.password)
    ensures r.0.error.None? ==> r.1 == st.(user := Some(st.db[f.email]))
    ensures r.0.error.Some? ==> r.1 == st
    ensures r.0.view == f.view && r.0.name == f.name && r.0.email == f.email && r.0.password == f.password
  {
    if f.email == "" || f.password == "" then
      (f.(error := Some(EnterCredentials)), st)
    else
      var (st', outcome) := UserStore.Login(st, f.email, f.password);
      if outcome.Success? then (f.(error := None), st')
      else (f.(error := ErrorFrom(outcome, LoginFallback)), st')
  }

  /** `onRegister`: missing fields, then a short password, are refused
      without asking the store; otherwise the store decides. */
  function OnRegister(f: Form, st: UserStore.Store, now: int): (r: (Form, UserStore.Store))
    ensures f.name == "" || f.email == "" || f.password == "" ==> r == (f.(error := Some(FillAllFields)), st)
    ensures f.name != "" && f.email != "" && f.password != "" && |f.password| < 6 ==>
      r == (f.(error := Some(PasswordTooShort)), st)
    ensures r.0.error.None? <==>
      f.name != "" && f.email != "" && |f.password| >= 6 && f.email !in st.db
    ensures r.0.error.None? ==> r.1.db == st.db && r.1.user.Some? && UserStore.WellFormedNew(r.1.user.value, f.name, f.email, f.password)
    ensures r.0.error.Some? ==> r.1 == st
  {
    if f.name == "" || f.email == "" || f.password == "" then
      (f.(error := Some(FillAllFields)), st)
    else if |f.password| < 6 then
      (f.(error := Some(PasswordTooShort)), st)
    else
      var (st', outcome) := UserStore.Register(st, f.name, f.email, f.password, now);
      if outcome.Success? then (f.(error := None), st')
      else (f.(error := ErrorFrom(outcome, RegisterFallback)), st')
  }

  /** `onSubmit`: the login view can only log in an existing account, the
      register view can only create a new one. */
  function OnSubmit(f: Form, st: UserStore.Store, now: int): (r: (Form, UserStore.Store))
    ensures f.view == LoginView ==> r.1.db == st.db && (r.1 == st || (f.email in st.db && r.1.user == Some(st.db[f.email])))
    ensures f.view == RegisterView ==> r.1 == st || (f.email !in st.db && r.1.user.Some? && r.1.user.value.email == f.email)
    ensures r.0.view == f.view
  {
    if f.view == LoginView then OnLogin(f, st) else OnRegister(f, st, now)
  }

  /** Once the form has checked the fields, the only refusal the store can
      still give at registration is the taken email. */
  lemma RegisterRefusalIsDuplicate(f: Form, st: UserStore.Store, now: int)
    requires f.name != "" && f.email != "" && |f.password| >= 6
    requires f.email in st.db
    ensures OnRegister(f, st, now).0.error == Some(UserStore.DuplicateEmail)
  {
  }

  /** The form checks its fields before the taken email is looked at, so an
      incomplete form for a taken email reports the missing fields, while
      the store on its own would report the taken email. */
  lemma FieldsCheckedBeforeDuplicate(f: Form, st: UserStore.Store, now: int)
    requires f.name == "" && f.email in st.db
    ensures OnRegister(f, st, now).0.error == Some(FillAllFields)
    ensures UserStore.Register(st, f.name, f.email, f.password, now).1 == UserStore.Failure(UserStore.DuplicateEmail)
  {
  }

  /** The store's login refusals are never empty, so the fallback text is
      never shown. */
  lemma LoginFallbackUnused(f: Form, st: UserStore.Store)
    ensures OnLogin(f, st).0.error != Some(LoginFallback)
  {
  }
}
