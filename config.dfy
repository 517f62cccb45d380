/**
  The two decisions the application takes from its configuration: which
  database URL it hands to the engine (app.py:75-89) and whether a login
  attempt succeeds (app.py:175-198).
 */
module Config {
  import opened Wrappers
  import opened Text

  const PostgresScheme: string := "postgres://"
  const PostgresqlScheme: string := "postgresql://"
  const PsycopgScheme: string := "postgresql+psycopg://"

  /** app.py:84-87: a `postgres://` or `postgresql://` URL is switched to the
      psycopg driver by replacing its first occurrence of the scheme once. */
  function RewriteDbUrl(url: string): string {
    if StartsWith(url, PostgresScheme) then ReplaceFirst(url, PostgresScheme, PsycopgScheme)
    else if StartsWith(url, PostgresqlScheme) then ReplaceFirst(url, PostgresqlScheme, PsycopgScheme)
    else url
  }

  /** A leading scheme is the first occurrence of itself. */
  lemma ReplaceLeading(url: string, pat: string, rep: string)
    requires pat != [] && StartsWith(url, pat)
    ensures ReplaceFirst(url, pat, rep) == rep + url[|pat|..]
  {
    assert OccursAt(url, pat, 0);
    ReplaceFirstAt(url, pat, rep, 0);
  }

  /** Neither driver scheme is a prefix of a string that starts with the psycopg
      scheme, and the two are never prefixes of the same string. */
  lemma SchemesDisjoint(url: string)
    ensures StartsWith(url, PostgresqlScheme) ==> !StartsWith(url, PostgresScheme)
    ensures StartsWith(url, PsycopgScheme) ==>
              !StartsWith(url, PostgresScheme) && !StartsWith(url, PostgresqlScheme)
  {
    if StartsWith(url, PostgresqlScheme) {
      assert url[8] == PostgresqlScheme[8] == 'q';
      assert PostgresScheme[8] == ':';
    }
    if StartsWith(url, PsycopgScheme) {
      assert url[8] == PsycopgScheme[8] == 'q';
      assert url[10] == PsycopgScheme[10] == '+';
      assert PostgresScheme[8] == ':' && PostgresqlScheme[10] == ':';
    }
  }

  /** The URL rewrite: the scheme is replaced once, the rest of the URL is kept
      character for character, and any other URL is passed through unchanged. */
  lemma RewriteDbUrlSpec(url: string)
    ensures StartsWith(url, PostgresScheme) ==>
              RewriteDbUrl(url) == PsycopgScheme + url[|PostgresScheme|..]
    ensures StartsWith(url, PostgresqlScheme) ==>
              RewriteDbUrl(url) == PsycopgScheme + url[|PostgresqlScheme|..]
    ensures !StartsWith(url, PostgresScheme) && !StartsWith(url, PostgresqlScheme) ==>
              RewriteDbUrl(url) == url
  {
    SchemesDisjoint(url);
    if StartsWith(url, PostgresScheme) {
      ReplaceLeading(url, PostgresScheme, PsycopgScheme);
    } else if StartsWith(url, PostgresqlScheme) {
      ReplaceLeading(url, PostgresqlScheme, PsycopgScheme);
    }
  }

  /** Rewriting an already rewritten URL changes nothing. */
  lemma RewriteDbUrlIdempotent(url: string)
    ensures RewriteDbUrl(RewriteDbUrl(url)) == RewriteDbUrl(url)
  {
    RewriteDbUrlSpec(url);
    var r := RewriteDbUrl(url);
    if StartsWith(url, PostgresScheme) || StartsWith(url, PostgresqlScheme) {
      assert r[..|PsycopgScheme|] == PsycopgScheme;
      SchemesDisjoint(r);
    }
    RewriteDbUrlSpec(r);
  }

  const SqliteScheme: string := "sqlite:///"

  /** app.py:75-89: the URL of the engine. Without a (non-empty)
      `DATABASE_URL` it is the SQLite file at `dbPath`, the path
      `APP_DIR / "badminton.db"` as `pathlib` joins it; otherwise it is the
      configured URL with a bare PostgreSQL scheme switched to the psycopg
      driver. Either way the engine never receives a bare `postgres://` or
      `postgresql://` URL. */
  function EngineUrl(databaseUrl: Option<string>, dbPath: string): (r: string)
    ensures (databaseUrl.None? || databaseUrl.value == []) ==>
              StartsWith(r, SqliteScheme) && r[|SqliteScheme|..] == dbPath
    ensures !StartsWith(r, PostgresScheme) && !StartsWith(r, PostgresqlScheme)
    ensures databaseUrl.Some? && StartsWith(databaseUrl.value, PostgresScheme) ==>
              r == PsycopgScheme + databaseUrl.value[|PostgresScheme|..]
    ensures databaseUrl.Some? && StartsWith(databaseUrl.value, PostgresqlScheme) ==>
              r == PsycopgScheme + databaseUrl.value[|PostgresqlScheme|..]
    ensures databaseUrl.Some? && databaseUrl.value != [] &&
            !StartsWith(databaseUrl.value, PostgresScheme) && !StartsWith(databaseUrl.value, PostgresqlScheme) ==>
              r == databaseUrl.value
  {
    if databaseUrl.None? || databaseUrl.value == [] then
      var r := SqliteScheme + dbPath;
      assert r[0] == 's' && PostgresScheme[0] == 'p' && PostgresqlScheme[0] == 'p';
      assert r[..|SqliteScheme|] == SqliteScheme;
      r
    else
      var url := databaseUrl.value;
      RewriteDbUrlSpec(url);
      SchemesDisjoint(RewriteDbUrl(url));
      assert StartsWith(url, PostgresScheme) || StartsWith(url, PostgresqlScheme) ==>
               RewriteDbUrl(url)[..|PsycopgScheme|] == PsycopgScheme;
      RewriteDbUrl(url)
  }

  // ---------------------------------------------------------------- login

  /** What the login page does with a request. */
  datatype LoginOutcome =
    | LoginForm        // the empty form, no error
    | ConfigError      // "ADMIN_PASSWORD is not set": shown whatever was submitted
    | InvalidLogin     // "Invalid login": the same for a wrong name and a wrong password
    | LoggedIn         // the session is marked logged in and the user is sent to the index

  /** A request to the login page; a form field may be absent. */
  datatype LoginRequest = Get | Post(username: Option<string>, password: Option<string>)

  /** `request.form.get(field, "")`. */
  function FormField(field: Option<string>): string {
    if field.Some? then field.value else ""
  }

  /** app.py:177-196: with no admin password configured the page reports the
      configuration error; otherwise a posted form logs in exactly when the
      stripped user name equals the admin user name and the password, not
      stripped, equals the admin password. */
  function Login(adminUsername: string, adminPassword: string, req: LoginRequest): (r: LoginOutcome)
    ensures adminPassword == [] ==> r == ConfigError
    ensures r == LoggedIn <==>
              && adminPassword != []
              && req.Post?
              && Strip(FormField(req.username)) == adminUsername
              && FormField(req.password) == adminPassword
    ensures r == InvalidLogin <==>
              && adminPassword != []
              && req.Post?
              && (Strip(FormField(req.username)) != adminUsername || FormField(req.password) != adminPassword)
    ensures r == LoginForm <==> adminPassword != [] && req.Get?
  {
    if adminPassword == [] then ConfigError
    else match req
      case Get => LoginForm
      case Post(u, p) =>
        var username := Strip(FormField(u));
        var password := FormField(p);
        if username == adminUsername && adminPassword != [] && password == adminPassword then LoggedIn
        else InvalidLogin
  }

  /** Blanks around the submitted user name do not matter; blanks around the
      password do. */
  lemma LoginStripsOnlyUsername(adminUsername: string, adminPassword: string)
    requires adminPassword != []
    requires adminUsername == [] || (!IsSpace(adminUsername[0]) && !IsSpace(adminUsername[|adminUsername| - 1]))
    ensures Login(adminUsername, adminPassword, Post(Some(" " + adminUsername + "\t"), Some(adminPassword))) == LoggedIn
    ensures Login(adminUsername, adminPassword, Post(Some(adminUsername), Some(adminPassword + " "))) == InvalidLogin
  {
    StripPadded(adminUsername, ' ', '\t');
    assert " " + adminUsername + "\t" == [' '] + (adminUsername + ['\t']);
    assert |adminPassword + " "| != |adminPassword|;
  }
}
