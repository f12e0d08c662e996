/**
 * The Basic authentication guard in front of the export
 * (backend/src/routes/export.js): the header prefix, the split of the
 * decoded credentials into user name and password, the employee lookup,
 * the password check and the admin role.
 *
 * Base64 decoding and the bcrypt comparison are library calls and come in
 * as parameters. The split is modelled as written (`split(':')` destructured
 * into two) and as section 2 of RFC 7617 defines it (at the first colon).
 */
module ExportAuth {
  import opened Wrappers
  import opened Text
  import opened Schema
  import opened Request

  const MalformedHeader := "Authorization header missing or malformed (Basic Auth required)"
  const CredentialsRequired := "Username and password required in Basic Auth"
  const InvalidCredentials := "Invalid username or password"
  const AdminRequired := "Access denied. Admin role required."

  // ---------------------------------------------------------------------------
  // Splitting the decoded credentials
  // ---------------------------------------------------------------------------

  /**
   * `const [username, password] = credentials.split(':')`: the first piece,
   * and the second when there is one; anything after a second colon is lost.
   */
  function SplitCredentials(credentials: string): (r: (string, Option<string>))
    ensures ':' !in r.0
    ensures r.1.None? <==> ':' !in credentials
    ensures r.1.Some? ==> ':' !in r.1.value && StartsWith(credentials, r.0 + ":" + r.1.value)
    ensures r.1.None? ==> r.0 == credentials
    ensures r.1.Some? ==>
      var n := |r.0| + 1 + |r.1.value|;
      n == |credentials| || credentials[n] == ':'
  {
    var parts := Split(credentials, ':');
    SplitPieces(credentials);
    assert ':' !in credentials ==> parts == [credentials] by {
      if ':' !in credentials { SplitNoSep(credentials, ':'); }
    }
    assert |parts| >= 2 ==> |parts[0]| + 1 + |parts[1]| == |credentials| || credentials[|parts[0]| + 1 + |parts[1]|] == ':' by {
      if |parts| >= 2 { SecondPieceEnds(credentials); }
    }
    (parts[0], if |parts| >= 2 then Some(parts[1]) else None)
  }

  /** The first two pieces of a split, joined back, start the string; a second piece exists exactly when there is a colon. */
  lemma {:induction false} SplitPieces(s: string)
    ensures |Split(s, ':')| >= 2 <==> ':' in s
    ensures |Split(s, ':')| >= 2 ==> StartsWith(s, Split(s, ':')[0] + ":" + Split(s, ':')[1])
    decreases |s|
  {
    if s != [] {
      SplitPieces(s[1..]);
      if s[0] == ':' {
        SplitFirstPiece(s[1..]);
      } else {
        ConsPieces(s);
      }
    }
  }

  /** A leading non-colon character joins the first piece and keeps the rest of the split. */
  lemma ConsPieces(s: string)
    requires s != [] && s[0] != ':'
    requires |Split(s[1..], ':')| >= 2 ==> StartsWith(s[1..], Split(s[1..], ':')[0] + ":" + Split(s[1..], ':')[1])
    ensures |Split(s, ':')| == |Split(s[1..], ':')|
    ensures |Split(s, ':')| >= 2 ==> StartsWith(s, Split(s, ':')[0] + ":" + Split(s, ':')[1])
  {
    var rest := Split(s[1..], ':');
    var parts := Split(s, ':');
    assert parts == [[s[0]] + rest[0]] + rest[1..];
    if |rest| >= 2 {
      assert parts[0] == [s[0]] + rest[0] && parts[1] == rest[1];
      assert s == [s[0]] + s[1..];
      StartsWithCons(s[0], s[1..], rest[0], rest[1]);
    }
  }

  /** A character put in front of both a string and its `a:b` prefix keeps it a prefix. */
  lemma StartsWithCons(c: char, t: string, a: string, b: string)
    requires StartsWith(t, a + ":" + b)
    ensures StartsWith([c] + t, ([c] + a) + ":" + b)
  {
    assert ([c] + a) + ":" + b == [c] + (a + ":" + b);
    assert ([c] + t)[..|a| + |b| + 2] == [c] + t[..|a| + |b| + 1];
  }

  /** The second piece of a split runs to the end of the string or to the next colon. */
  lemma SecondPieceEnds(s: string)
    requires |Split(s, ':')| >= 2
    ensures var parts := Split(s, ':');
      var n := |parts[0]| + 1 + |parts[1]|;
      n <= |s| && (n == |s| || s[n] == ':')
  {
    var parts := Split(s, ':');
    var tail := parts[1..];
    JoinSplit(s, ':');
    assert s == parts[0] + [':'] + Join(tail, ':');
    if |tail| == 1 {
      assert s == parts[0] + [':'] + parts[1];
    } else {
      assert s == parts[0] + [':'] + (parts[1] + [':'] + Join(tail[1..], ':'));
      assert s[|parts[0]| + 1 + |parts[1]|] == ':';
    }
  }

  /** The first piece of a split starts the string. */
  lemma {:induction false} SplitFirstPiece(s: string)
    ensures StartsWith(s, Split(s, ':')[0])
    decreases |s|
  {
    if s != [] && s[0] != ':' {
      SplitFirstPiece(s[1..]);
    }
  }

  /** The user id and the password as section 2 of RFC 7617 reads them: split at the first colon. */
  function SplitAtFirstColon(credentials: string): (r: Option<(string, string)>)
    ensures r.None? <==> ':' !in credentials
    ensures r.Some? ==> credentials == r.value.0 + ":" + r.value.1 && ':' !in r.value.0
    decreases |credentials|
  {
    if credentials == [] then None
    else if credentials[0] == ':' then Some(("", credentials[1..]))
    else match SplitAtFirstColon(credentials[1..])
      case None => None
      case Some(pair) =>
        assert credentials == [credentials[0]] + credentials[1..];
        Some(([credentials[0]] + pair.0, pair.1))
  }

  /** A user id without a colon and any password come back from their `user:password` form. */
  lemma {:induction false} SplitAtFirstColonRoundTrip(user: string, password: string)
    requires ':' !in user
    ensures SplitAtFirstColon(user + ":" + password) == Some((user, password))
    decreases |user|
  {
    var s := user + ":" + password;
    if user == [] {
      assert s[1..] == password;
    } else {
      assert s[1..] == user[1..] + ":" + password;
      SplitAtFirstColonRoundTrip(user[1..], password);
      assert [user[0]] + user[1..] == user;
    }
  }

  /** With at most one colon both splits read the same user name and password. */
  lemma SplitsAgree(user: string, password: string)
    requires ':' !in user && ':' !in password
    ensures SplitCredentials(user + ":" + password) == (user, Some(password))
    ensures SplitAtFirstColon(user + ":" + password) == Some((user, password))
  {
    SplitJoin([user, password], ':');
    assert Join([user, password], ':') == user + ":" + password;
    SplitAtFirstColonRoundTrip(user, password);
  }

  // ---------------------------------------------------------------------------
  // The guard
  // ---------------------------------------------------------------------------

  /**
   * The checks after the split: both parts non-empty, a user with that name,
   * a password that matches its hash (`matches`, the bcrypt comparison), and
   * the admin role.
   */
  function Authenticate(username: string, password: Option<string>, employees: seq<Employee>,
                        matches: (string, string) -> bool): (g: Guard<Employee>)
    ensures g.Admit? <==>
      && username != "" && password.Some? && password.value != ""
      && FindByUsername(employees, username).Some?
      && matches(password.value, FindByUsername(employees, username).value.passwordHash)
      && FindByUsername(employees, username).value.role == "admin"
    ensures g.Admit? ==> g.user in employees && g.user.username == username && g.user.role == "admin"
    ensures g.Reject? && g.status == 403 <==>
      && username != "" && password.Some? && password.value != ""
      && FindByUsername(employees, username).Some?
      && matches(password.value, FindByUsername(employees, username).value.passwordHash)
      && FindByUsername(employees, username).value.role != "admin"
    ensures g.Reject? ==> g.status == 401 || g.status == 403
    ensures (username == "" || password.None? || password == Some("")) ==> g == Reject(401, CredentialsRequired)
  {
    if username == "" || password.None? || password.value == "" then Reject(401, CredentialsRequired)
    else match FindByUsername(employees, username)
      case None => Reject(401, InvalidCredentials)
      case Some(user) =>
        if !matches(password.value, user.passwordHash) then Reject(401, InvalidCredentials)
        else if user.role != "admin" then Reject(403, AdminRequired)
        else Admit(user)
  }

  /** The header carries Basic credentials: it is present and starts with "Basic ". */
  predicate BasicHeader(header: Option<string>) {
    header.Some? && StartsWith(header.value, "Basic ")
  }

  /** The guard as written. `decode` is the base64 decoding of the text after "Basic ". */
  function ExportGuard(header: Option<string>, decode: string -> string, employees: seq<Employee>,
                       matches: (string, string) -> bool): (g: Guard<Employee>)
    ensures !BasicHeader(header) ==> g == Reject(401, MalformedHeader)
    ensures g.Admit? ==> BasicHeader(header) && g.user in employees && g.user.role == "admin"
    ensures g.Admit? ==>
      var (username, password) := SplitCredentials(decode(header.value[6..]));
      && username == g.user.username && password.Some? && password.value != ""
      && matches(password.value, g.user.passwordHash)
    ensures g.Reject? ==> g.status == 401 || g.status == 403
  {
    if !BasicHeader(header) then Reject(401, MalformedHeader)
    else
      var (username, password) := SplitCredentials(decode(header.value[6..]));
      Authenticate(username, password, employees, matches)
  }

  /** The guard reading the credentials as section 2 of RFC 7617 defines them. */
  function RfcExportGuard(header: Option<string>, decode: string -> string, employees: seq<Employee>,
                          matches: (string, string) -> bool): (g: Guard<Employee>)
    ensures !BasicHeader(header) ==> g == Reject(401, MalformedHeader)
    ensures g.Admit? ==> BasicHeader(header) && g.user in employees && g.user.role == "admin"
    ensures g.Admit? ==>
      && SplitAtFirstColon(decode(header.value[6..])).Some?
      && decode(header.value[6..]) == g.user.username + ":" + SplitAtFirstColon(decode(header.value[6..])).value.1
      && matches(SplitAtFirstColon(decode(header.value[6..])).value.1, g.user.passwordHash)
    ensures g.Reject? ==> g.status == 401 || g.status == 403
  {
    if !BasicHeader(header) then Reject(401, MalformedHeader)
    else
      var credentials := decode(header.value[6..]);
      var split := SplitAtFirstColon(credentials);
      if split.None? then Authenticate(credentials, None, employees, matches)
      else Authenticate(split.value.0, Some(split.value.1), employees, matches)
  }

  /** A user name and a password without a colon: both guards decide alike. */
  lemma GuardsAgree(header: Option<string>, decode: string -> string, employees: seq<Employee>,
                    matches: (string, string) -> bool, username: string, password: string)
    requires BasicHeader(header) && decode(header.value[6..]) == username + ":" + password
    requires ':' !in username && ':' !in password
    ensures ExportGuard(header, decode, employees, matches) == RfcExportGuard(header, decode, employees, matches)
    ensures ExportGuard(header, decode, employees, matches) == Authenticate(username, Some(password), employees, matches)
  {
    SplitsAgree(username, password);
  }

  /** `split(':')` cuts "admin:pa:ss" into three pieces and the guard keeps two. */
  lemma SplitOfColonPassword()
    ensures SplitCredentials("admin:pa:ss") == ("admin", Some("pa"))
  {
    var parts := ["admin", "pa", "ss"];
    assert Join(parts[1..][1..], ':') == "ss";
    assert Join(parts[1..], ':') == "pa:ss";
    assert Join(parts, ':') == "admin:pa:ss";
    SplitJoin(parts, ':');
  }

  /** The header of the example below carries Basic credentials "admin:pa:ss". */
  lemma SampleHeader()
    ensures BasicHeader(Some("Basic admin:pa:ss")) && "Basic admin:pa:ss"[6..] == "admin:pa:ss"
  {
    assert "Basic admin:pa:ss"[..6] == "Basic ";
  }

  /** Split at the first colon, "admin:pa:ss" is user "admin" with password "pa:ss". */
  lemma FirstColonOfColonPassword()
    ensures SplitAtFirstColon("admin:pa:ss") == Some(("admin", "pa:ss"))
  {
    SplitAtFirstColonRoundTrip("admin", "pa:ss");
    assert "admin" + ":" + "pa:ss" == "admin:pa:ss";
  }

  /**
   * An administrator whose password is "pa:ss" cannot export: the guard as
   * written checks only "pa" against the hash and answers 401.
   */
  lemma ColonInPasswordRejected(admin: Employee, decode: string -> string, matches: (string, string) -> bool)
    requires admin.username == "admin" && admin.role == "admin"
    requires decode("admin:pa:ss") == "admin:pa:ss"
    requires matches("pa:ss", admin.passwordHash) && !matches("pa", admin.passwordHash)
    ensures ExportGuard(Some("Basic admin:pa:ss"), decode, [admin], matches) == Reject(401, InvalidCredentials)
  {
    var header := Some("Basic admin:pa:ss");
    SampleHeader();
    SplitOfColonPassword();
    assert FindByUsername([admin], "admin") == Some(admin);
    assert ExportGuard(header, decode, [admin], matches) == Authenticate("admin", Some("pa"), [admin], matches);
  }

  /** The RFC guard on a Basic header whose credentials split at their first colon into `username` and `password`. */
  lemma RfcGuardOnSplit(header: Option<string>, decode: string -> string, employees: seq<Employee>,
                        matches: (string, string) -> bool, username: string, password: string)
    requires BasicHeader(header) && SplitAtFirstColon(decode(header.value[6..])) == Some((username, password))
    ensures RfcExportGuard(header, decode, employees, matches) == Authenticate(username, Some(password), employees, matches)
  {
  }

  /** The same administrator is admitted when the credentials are read as section 2 of RFC 7617 defines them. */
  lemma ColonInPasswordAdmitted(admin: Employee, decode: string -> string, matches: (string, string) -> bool)
    requires admin.username == "admin" && admin.role == "admin"
    requires decode("admin:pa:ss") == "admin:pa:ss"
    requires matches("pa:ss", admin.passwordHash) && !matches("pa", admin.passwordHash)
    ensures RfcExportGuard(Some("Basic admin:pa:ss"), decode, [admin], matches) == Admit(admin)
  {
    var header := Some("Basic admin:pa:ss");
    SampleHeader();
    FirstColonOfColonPassword();
    RfcGuardOnSplit(header, decode, [admin], matches, "admin", "pa:ss");
    SoleAdminAuthenticates(admin, "pa:ss", matches);
  }

  /** The only employee, an administrator, is admitted with a password that matches its hash. */
  lemma SoleAdminAuthenticates(admin: Employee, password: string, matches: (string, string) -> bool)
    requires admin.username != "" && admin.role == "admin"
    requires password != "" && matches(password, admin.passwordHash)
    ensures Authenticate(admin.username, Some(password), [admin], matches) == Admit(admin)
  {
    assert FindByUsername([admin], admin.username) == Some(admin);
  }
}
