/**
 * The two authorization gates and the decision the login handler takes.
 * Password hashing is not modelled: the bcrypt comparison is the parameter
 * `hashMatches`, about which nothing is assumed.
 */
module Auth {
  import opened Records

  /** The `isLoggedIn` middleware: `None` lets the handler run, `Some(r)` answers `r` instead. */
  function CheckLoggedIn(s: Session): (r: Option<Response>)
    ensures r.None? <==> s.loggedIn
    ensures r.Some? ==> r.value.status == 401 && r.value.body == Message(false, "Unauthorized")
  {
    if s.loggedIn then None else Some(Unauthorized)
  }

  /** The `isAdmin` middleware: `None` lets the handler run, `Some(r)` answers `r` instead. */
  function CheckAdmin(s: Session): (r: Option<Response>)
    ensures r.None? <==> s.loggedIn && s.isAdmin
    ensures r.Some? ==> r.value.status == 403 && r.value.body == Message(false, "Forbidden")
  {
    if s.loggedIn && s.isAdmin then None else Some(Forbidden)
  }

  /** Whoever passes the admin gate also passes the logged-in gate. */
  lemma AdminPassesLoggedIn(s: Session)
    ensures CheckAdmin(s).None? ==> CheckLoggedIn(s).None?
  {
  }

  /** The table the login query reads: `admins` for user type "admin", `readers` for anything else. */
  function AccountTable(userType: string, admins: seq<Account>, readers: seq<Account>): seq<Account>
  {
    if userType == "admin" then admins else readers
  }

  /** Row `i` is the first row of `rows` with this username. */
  ghost predicate FirstMatch(rows: seq<Account>, username: string, i: int)
  {
    && 0 <= i < |rows|
    && rows[i].username == username
    && forall j :: 0 <= j < i ==> rows[j].username != username
  }

  /** `rows[0]` of `SELECT id, username, password FROM <table> WHERE username = ?`. */
  function FirstByUsername(rows: seq<Account>, username: string): (r: Option<Account>)
    ensures r.None? <==> forall i :: 0 <= i < |rows| ==> rows[i].username != username
    ensures r.Some? ==> exists i :: FirstMatch(rows, username, i) && rows[i] == r.value
  {
    if rows == [] then None
    else if rows[0].username == username then
      assert FirstMatch(rows, username, 0);
      Some(rows[0])
    else
      FirstMatchShift(rows, username);
      FirstByUsername(rows[1..], username)
  }

  /** A first match in the tail is a first match of the whole table when the head does not match. */
  lemma FirstMatchShift(rows: seq<Account>, username: string)
    requires |rows| > 0 && rows[0].username != username
    ensures forall k :: FirstMatch(rows[1..], username, k) ==> FirstMatch(rows, username, k + 1)
  {
  }

  /** The credential check: the bcrypt comparison, or the plain-text equality fallback. */
  predicate PasswordAccepted(hashMatches: (string, string) -> bool, password: string, stored: string)
  {
    hashMatches(password, stored) || password == stored
  }

  /**
   * The account the login handler logs in as, if any: the first row with
   * that username, provided its stored password is accepted.
   */
  function Authenticate(rows: seq<Account>, username: string, password: string,
                        hashMatches: (string, string) -> bool): (r: Option<Account>)
    ensures r.Some? <==>
      exists i :: FirstMatch(rows, username, i) && PasswordAccepted(hashMatches, password, rows[i].password)
    ensures r.Some? ==> exists i :: FirstMatch(rows, username, i) && rows[i] == r.value
  {
    var user := FirstByUsername(rows, username);
    if user.Some? && PasswordAccepted(hashMatches, password, user.value.password) then
      user
    else
      FirstMatchUnique(rows, username);
      None
  }

  /** At most one row is the first with a given username. */
  lemma FirstMatchUnique(rows: seq<Account>, username: string)
    ensures forall i, j :: FirstMatch(rows, username, i) && FirstMatch(rows, username, j) ==> i == j
  {
  }

  /** The page the browser is sent to after a successful login. */
  function RedirectPath(userType: string, username: string): (path: string)
    ensures userType == "admin" <==> path == "/admin.html"
  {
    if userType == "admin" then "/admin.html" else "/reader.html?user=" + username
  }
}
