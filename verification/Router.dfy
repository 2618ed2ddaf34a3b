/**
 dispatch and require_basic_auth of src/router.cpp over the session map of
 src/session_manager.cpp: one dispatch is one atomic step. The id generate_session_id would
 mint is part of the event; everything else is computed from the raw request.
 */
module Router {
  import opened Options
  import opened Text
  import HttpRequest
  import RequestFields
  import Credentials
  import Registry
  import Base64
  import Percent

  const AUTHENTICATED := "authenticated:admin"
  const DEFAULT_DATA := "default_user_data"
  const ADMIN_PREFIX := "/admin/"
  const WHOAMI := "/whoami"
  const ADD_RULE := "/admin/add_rule"
  const UPDATE_RULE := "/admin/update_rule"

  predicate IsAdminRoute(path: string) {
    path in {"/admin/system_status", "/admin/upload_file", ADD_RULE, UPDATE_RULE,
             "/admin/logging", "/admin/deploy_site", WHOAMI}
  }

  type Sessions = map<string, string>

  datatype Server = Server(sessions: Sessions, rules: Registry.Rules)

  datatype Event = Event(raw: string, freshId: string)

  datatype Handler =
    | BadRequest | MethodNotAllowed
    | Status | Logs | Echo | CgiHelper
    | Unauthorized
    | Aborted                       // an exception leaves dispatch
    | Admin(route: string)
    | Execute(rule: Registry.Route)
    | Static

  datatype Outcome = Outcome(handler: Handler, minted: Option<string>)

  // ---- Authorisation

  datatype Auth = Granted | Denied | Threw

  function AuthHeader(raw: string): string {
    RequestFields.HeaderValue(raw, "Authorization:")
  }

  function RequireBasicAuth(raw: string): Auth
    requires |AuthHeader(raw)| != Credentials.PREFIX
  {
    if AuthHeader(raw) == "" then Denied
    else match Credentials.Extract(AuthHeader(raw))
      case Threw => Threw
      case Rejected => Denied
      case Accepted(user, password) => if Credentials.Authenticate(user, password) then Granted else Denied
  }

  /** The text behind the six skipped characters of the Authorization header decodes to the one account's pair. */
  predicate ValidCredentials(raw: string) {
    var header := RequestFields.HeaderValue(raw, "Authorization:");
    && |header| > 6
    && Base64.Decode(header[6..]).Some?
    && Credentials.CText(Base64.Decode(header[6..]).value) == "admin:admin"
  }

  lemma AccountPair(header: string)
    requires |header| > 6
    ensures Credentials.Extract(header) == Credentials.Accepted("admin", "admin") <==>
            Base64.Decode(header[6..]).Some?
            && Credentials.CText(Base64.Decode(header[6..]).value) == "admin:admin"
  {
    var pair := "admin" + ":" + "admin";
    assert pair == "admin:admin" && ':' !in "admin";
    hide Credentials.Extract, Base64.Decode, Credentials.CText;
    Credentials.ExtractIff(header, "admin", "admin");
  }

  /** A request is granted exactly with valid credentials; a header too short to skip six characters throws. */
  lemma AuthIff(raw: string)
    requires |AuthHeader(raw)| != 6
    ensures RequireBasicAuth(raw) == Granted <==> ValidCredentials(raw)
    ensures RequireBasicAuth(raw) == Threw <==> 0 < |AuthHeader(raw)| < 6
    ensures !Contains(raw, "Authorization:") ==> RequireBasicAuth(raw) == Denied
  {
    hide RequestFields.HeaderValue, Credentials.Extract, Base64.Decode, Credentials.CText, Contains;
    var header := AuthHeader(raw);
    if !Contains(raw, "Authorization:") {
      RequestFields.MissingHeader(raw, "Authorization:");
    }
    Credentials.ExtractIff(header, "", "");
    if |header| > 6 {
      AccountPair(header);
    }
  }

  /** Printed Basic credentials are accepted exactly when they are the one account's. */
  lemma PrintedCredentials(before: string, user: string, password: string, rest: string)
    requires ':' !in user && NulFree(user) && NulFree(password)
    requires forall i :: 0 <= i < |user + ":" + password| ==> (user + ":" + password)[i] as int < 256
    requires var value := "Basic " + Base64.Encode(Credentials.Octets(user + ":" + password));
             FirstAt(RequestFields.WithHeader(before, "Authorization:", " ", value, rest),
                                   "Authorization:", |before|)
    ensures var value := "Basic " + Base64.Encode(Credentials.Octets(user + ":" + password));
            var raw := RequestFields.WithHeader(before, "Authorization:", " ", value, rest);
            && |AuthHeader(raw)| != Credentials.PREFIX
            && (RequireBasicAuth(raw) == Granted <==> user == "admin" && password == "admin")
  {
    hide RequestFields.WithHeader, RequestFields.HeaderValue, FirstAt, Base64.Encode, Credentials.Extract,
         Base64.InAlphabet, Credentials.Octets;
    var octets := Credentials.Octets(user + ":" + password);
    var value := "Basic " + Base64.Encode(octets);
    assert '\r' !in value by {
      Base64.EncodeSymbols(octets);
      assert !Base64.InAlphabet('\r') by { NoLineBreakSymbol(); }
      assert '\r' !in "Basic ";
    }
    RequestFields.NoLineBreak(value);
    RequestFields.PrintedHeaderReads(before, "Authorization:", " ", value, rest);
    Credentials.CredentialsRoundTrip(user, password);
  }

  lemma NoLineBreakSymbol()
    ensures !Base64.InAlphabet('\r')
  {
  }

  function SessionData(sessions: Sessions, id: string): string {
    if id in sessions then sessions[id] else ""
  }

  /** An authenticated session is admitted directly, except on /whoami; else credentials decide, and mark it. */
  function Authorize(sessions: Sessions, raw: string, whoami: bool, id: string): (Sessions, Auth)
    requires |AuthHeader(raw)| != Credentials.PREFIX
  {
    if !whoami && id != "" && SessionData(sessions, id) == AUTHENTICATED then (sessions, Granted)
    else
      var auth := RequireBasicAuth(raw);
      (if auth == Granted && !whoami && id != "" then sessions[id := AUTHENTICATED] else sessions, auth)
  }

  // ---- One dispatch

  /** The path of a parsed request. */
  function PathOf(e: Event): Option<string>
    requires HttpRequest.PathFits(e.raw)
  {
    match HttpRequest.ParseRequest(e.raw)
    case Refused(_) => None
    case Parsed(request) => Some(request.cleanPath)
  }

  predicate Protected(path: string) {
    ADMIN_PREFIX <= path || path == WHOAMI
  }

  /** What the parsers demand of a request on the way its path takes: see the functions that read it. */
  ghost predicate Served(e: Event) {
    && NulFree(e.raw) && e.freshId != ""
    && HttpRequest.PathFits(e.raw)
    && (PathOf(e).Some? && Protected(PathOf(e).value) ==> |AuthHeader(e.raw)| != Credentials.PREFIX)
    && (PathOf(e) == Some(ADD_RULE) ==> Registry.PayloadReadable(RequestFields.QueryParams(e.raw)))
  }

  function RunAdmin(s: Server, route: string, e: Event): Server {
    var params := RequestFields.QueryParams(e.raw);
    if route == ADD_RULE then s.(rules := Registry.Apply(s.rules, Registry.AddOp(params)))
    else if route == UPDATE_RULE then s.(rules := Registry.Apply(s.rules, Registry.UpdateOp(params)))
    else s
  }

  /** A rule for the path, else a static file, with a fresh session for a visitor without one. */
  function ServePath(s: Server, path: string, id: string, e: Event): (Server, Outcome) {
    var rule := Registry.Lookup(s.rules, path);
    if rule.Some? then (s, Outcome(Execute(rule.value), None))
    else if id == "" then
      (s.(sessions := s.sessions[e.freshId := DEFAULT_DATA]), Outcome(Static, Some(e.freshId)))
    else (s, Outcome(Static, None))
  }

  function DispatchProtected(s: Server, path: string, e: Event): (Server, Outcome)
    requires |AuthHeader(e.raw)| != Credentials.PREFIX
  {
    var id := RequestFields.SessionId(e.raw);
    var (sessions, auth) := Authorize(s.sessions, e.raw, path == WHOAMI, id);
    var t := s.(sessions := sessions);
    if auth == Threw then (s, Outcome(Aborted, None))
    else if auth == Denied then (s, Outcome(Unauthorized, None))
    else if IsAdminRoute(path) then (RunAdmin(t, path, e), Outcome(Admin(path), None))
    else ServePath(t, path, id, e)
  }

  function OpenRoute(path: string): (r: Option<Handler>)
    ensures r.Some? ==> r.value in {Status, Logs, Echo, CgiHelper}
  {
    if path == "/status" then Some(Status)
    else if path == "/logs" then Some(Logs)
    else if path == "/echo" then Some(Echo)
    else if path == "/cgi-helper" then Some(CgiHelper)
    else None
  }

  function Dispatch(s: Server, e: Event): (Server, Outcome)
    requires Served(e)
  {
    match HttpRequest.ParseRequest(e.raw)
    case Refused(token) => (s, Outcome(if token != "" then MethodNotAllowed else BadRequest, None))
    case Parsed(request) =>
      var path := request.cleanPath;
      if OpenRoute(path).Some? then (s, Outcome(OpenRoute(path).value, None))
      else if Protected(path) then DispatchProtected(s, path, e)
      else ServePath(s, path, RequestFields.SessionId(e.raw), e)
  }

  // ---- What each stage of a dispatch does

  predicate Reads(sessions: Sessions, id: string) {
    SessionData(sessions, id) == AUTHENTICATED
  }

  /** The routes before the protected ones, /whoami and the admin prefix exclude each other. */
  lemma PathClasses(path: string)
    ensures ADMIN_PREFIX <= path ==> OpenRoute(path) == None && path != WHOAMI
    ensures path == WHOAMI ==> OpenRoute(path) == None
    ensures IsAdminRoute(path) ==> Protected(path) && OpenRoute(path) == None
  {
    if ADMIN_PREFIX <= path {
      assert path[1] == ADMIN_PREFIX[1];
    }
  }

  lemma ServeShape(s: Server, path: string, id: string, e: Event)
    ensures var (t, outcome) := ServePath(s, path, id, e);
            && t.rules == s.rules && !outcome.handler.Admin?
            && (if Registry.Lookup(s.rules, path).Some?
                then outcome == Outcome(Execute(Registry.Lookup(s.rules, path).value), None)
                else outcome == Outcome(Static, if id == "" then Some(e.freshId) else None))
  {
    hide Registry.Lookup;
  }

  lemma ServeReads(s: Server, path: string, id: string, e: Event, x: string)
    ensures var (t, outcome) := ServePath(s, path, id, e);
            Reads(t.sessions, x) <==> Reads(s.sessions, x) && outcome.minted != Some(x)
  {
    hide Registry.Lookup;
    assert DEFAULT_DATA[0] != AUTHENTICATED[0];
    if id == "" && Registry.Lookup(s.rules, path).None? {
      assert SessionData(s.sessions[e.freshId := DEFAULT_DATA], e.freshId) == DEFAULT_DATA;
    }
  }

  lemma AuthorizeShape(sessions: Sessions, raw: string, whoami: bool, id: string, x: string)
    requires |AuthHeader(raw)| != Credentials.PREFIX
    ensures var (after, auth) := Authorize(sessions, raw, whoami, id);
            && (auth == Granted <==>
                  RequireBasicAuth(raw) == Granted || (!whoami && id != "" && Reads(sessions, id)))
            && (Reads(after, x) <==>
                  Reads(sessions, x) || (RequireBasicAuth(raw) == Granted && !whoami && id != "" && x == id))
            && (auth != Granted ==> after == sessions)
  {
    hide RequireBasicAuth;
  }

  lemma RunAdminShape(s: Server, route: string, e: Event, sessions: Sessions)
    ensures RunAdmin(s, route, e).sessions == s.sessions
    ensures RunAdmin(s.(sessions := sessions), route, e).rules == RunAdmin(s, route, e).rules
    ensures route != ADD_RULE && route != UPDATE_RULE ==> RunAdmin(s, route, e) == s
  {
    hide Registry.Apply, Registry.AddOp, Registry.UpdateOp, RequestFields.QueryParams;
  }

  /** The protected branch: who reaches an admin handler, what it reads and marks, what it registers. */
  lemma ProtectedShape(s: Server, path: string, e: Event, x: string)
    requires |AuthHeader(e.raw)| != Credentials.PREFIX
    ensures var (t, outcome) := DispatchProtected(s, path, e);
            var id := RequestFields.SessionId(e.raw);
            var granted := RequireBasicAuth(e.raw) == Granted;
            && (outcome.handler.Admin? <==>
                  IsAdminRoute(path) && (granted || (path != WHOAMI && id != "" && Reads(s.sessions, id))))
            && (outcome.handler.Admin? ==> outcome.handler.route == path)
            && (Reads(t.sessions, x) <==>
                  || (granted && path != WHOAMI && id != "" && x == id)
                  || (Reads(s.sessions, x) && outcome.minted != Some(x)))
            && t.rules == (if outcome.handler.Admin? then RunAdmin(s, path, e).rules else s.rules)
  {
    hide RequireBasicAuth, ValidCredentials, Authorize, Reads, RequestFields.SessionId, Registry.Lookup, RunAdmin,
         ServePath, IsAdminRoute;
    var id := RequestFields.SessionId(e.raw);
    AuthorizeShape(s.sessions, e.raw, path == WHOAMI, id, x);
    var t := s.(sessions := Authorize(s.sessions, e.raw, path == WHOAMI, id).0);
    ServeShape(t, path, id, e);
    ServeReads(t, path, id, e, x);
    RunAdminShape(t, path, e, s.sessions);
    RunAdminShape(s, path, e, t.sessions);
  }

  /** A request for a protected path with valid Basic credentials. */
  predicate Presents(e: Event)
    requires Served(e)
  {
    PathOf(e).Some? && ("/admin/" <= PathOf(e).value || PathOf(e).value == "/whoami") && ValidCredentials(e.raw)
  }

  /** One dispatch in terms of the state before it. */
  lemma DispatchShape(s: Server, e: Event, x: string)
    requires Served(e)
    ensures var (t, outcome) := Dispatch(s, e);
            var id := RequestFields.SessionId(e.raw);
            var granted := Presents(e);
            var path := PathOf(e);
            && (outcome.handler.Admin? <==>
                  && path.Some? && IsAdminRoute(path.value)
                  && (granted || (path.value != WHOAMI && id != "" && Reads(s.sessions, id))))
            && (outcome.handler.Admin? ==> path.Some? && outcome.handler.route == path.value)
            && (Reads(t.sessions, x) <==>
                  || (granted && path.Some? && ADMIN_PREFIX <= path.value && id != "" && x == id)
                  || (Reads(s.sessions, x) && outcome.minted != Some(x)))
            && t.rules == (if outcome.handler.Admin? then RunAdmin(s, path.value, e).rules else s.rules)
  {
    hide RequireBasicAuth, ValidCredentials, Reads, RequestFields.SessionId, Registry.Lookup, RunAdmin, ServePath,
         IsAdminRoute, DispatchProtected, HttpRequest.ParseRequest, OpenRoute;
    if PathOf(e).Some? {
      var path, id := PathOf(e).value, RequestFields.SessionId(e.raw);
      PathClasses(path);
      if Protected(path) {
        AuthIff(e.raw);
        ProtectedShape(s, path, e, x);
      }
      ServeShape(s, path, id, e);
      ServeReads(s, path, id, e, x);
    }
  }

  // ---- Which handler runs

  /** A CGI path is neither protected nor one of the routes before those. */
  lemma CgiPaths(rules: Registry.Rules, path: string)
    ensures Registry.Lookup(rules, path).Some? ==> !Protected(path) && OpenRoute(path) == None
  {
    if Registry.CGI_PREFIX <= path {
      assert path[1] == 'c' && path[5] == 'b';
    }
  }

  /** The request is admitted to a protected path: by its credentials or, under the admin prefix, by its session. */
  predicate Admitted(s: Server, e: Event)
    requires Served(e)
  {
    || Presents(e)
    || (PathOf(e).Some? && "/admin/" <= PathOf(e).value
        && RequestFields.SessionId(e.raw) != "" && Reads(s.sessions, RequestFields.SessionId(e.raw)))
  }

  lemma ProtectedOutcome(s: Server, path: string, e: Event)
    requires |AuthHeader(e.raw)| != Credentials.PREFIX && Protected(path)
    ensures var id, auth := RequestFields.SessionId(e.raw), RequireBasicAuth(e.raw);
            var admitted := auth == Granted || (path != WHOAMI && id != "" && Reads(s.sessions, id));
            DispatchProtected(s, path, e).1 ==
              if !admitted then Outcome(if auth == Denied then Unauthorized else Aborted, None)
              else if IsAdminRoute(path) then Outcome(Admin(path), None)
              else Outcome(Static, if id == "" then Some(e.freshId) else None)
  {
    hide RequireBasicAuth, ValidCredentials, Authorize, Reads, RequestFields.SessionId, Registry.Lookup, RunAdmin,
         ServePath, IsAdminRoute, Protected;
    var id := RequestFields.SessionId(e.raw);
    var (sessions, auth) := Authorize(s.sessions, e.raw, path == WHOAMI, id);
    AuthorizeShape(s.sessions, e.raw, path == WHOAMI, id, id);
    AuthorizeRefuses(s.sessions, e.raw, path == WHOAMI, id);
    CgiPaths(s.rules, path);
    ServeShape(s.(sessions := sessions), path, id, e);
  }

  lemma AuthorizeRefuses(sessions: Sessions, raw: string, whoami: bool, id: string)
    requires |AuthHeader(raw)| != Credentials.PREFIX
    ensures var auth := Authorize(sessions, raw, whoami, id).1;
            auth != Granted ==> auth == RequireBasicAuth(raw)
  {
    hide RequireBasicAuth;
  }

  lemma OpenRoutes(path: string)
    ensures OpenRoute(path) == Some(Status) <==> path == "/status"
    ensures OpenRoute(path) == Some(Logs) <==> path == "/logs"
    ensures OpenRoute(path) == Some(Echo) <==> path == "/echo"
    ensures OpenRoute(path) == Some(CgiHelper) <==> path == "/cgi-helper"
  {
    assert "/logs"[1] != "/echo"[1];
  }

  /** The seven paths of the route table. */
  function AdminPaths(): set<string> {
    {"/admin/system_status", "/admin/upload_file", "/admin/add_rule", "/admin/update_rule",
     "/admin/logging", "/admin/deploy_site", "/whoami"}
  }

  lemma AdminRoutes(path: string)
    ensures IsAdminRoute(path) <==> path in AdminPaths()
  {
  }

  /**
   What a request comes to, case by case: refused by the parser, an open route, refused or
   aborted by the authorisation, an admin handler, the rule of its own path, or a static file
   with a session minted exactly for a visitor without an id.
   */
  lemma DispatchOutcome(s: Server, e: Event)
    requires Served(e)
    ensures var Outcome(handler, minted) := Dispatch(s, e).1;
            var path, id := PathOf(e), RequestFields.SessionId(e.raw);
            && (handler in {BadRequest, MethodNotAllowed} <==> path == None)
            && (path == None ==> (handler == MethodNotAllowed <==> HttpRequest.ParseRequest(e.raw).token != ""))
            && (handler == Status <==> path == Some("/status"))
            && (handler == Logs <==> path == Some("/logs"))
            && (handler == Echo <==> path == Some("/echo"))
            && (handler == CgiHelper <==> path == Some("/cgi-helper"))
            && (handler in {Unauthorized, Aborted} <==>
                  path.Some? && ("/admin/" <= path.value || path.value == "/whoami") && !Admitted(s, e))
            && (handler == Unauthorized ==> RequireBasicAuth(e.raw) == Denied)
            && (handler == Aborted ==> RequireBasicAuth(e.raw) == Threw)
            && (handler.Admin? <==> path.Some? && path.value in AdminPaths() && Admitted(s, e))
            && (handler.Admin? ==> handler.route == path.value)
            && (handler.Execute? <==> path.Some? && Registry.Lookup(s.rules, path.value).Some?)
            && (handler.Execute? ==> Registry.Lookup(s.rules, path.value) == Some(handler.rule))
            && minted == (if handler == Static && id == "" then Some(e.freshId) else None)
  {
    hide RequireBasicAuth, ValidCredentials, Reads, RequestFields.SessionId, Registry.Lookup, RunAdmin, ServePath,
         IsAdminRoute, DispatchProtected, HttpRequest.ParseRequest, OpenRoute;
    if PathOf(e).Some? {
      var path, id := PathOf(e).value, RequestFields.SessionId(e.raw);
      PathClasses(path);
      CgiPaths(s.rules, path);
      ServeShape(s, path, id, e);
      OpenRoutes(path);
      AdminRoutes(path);
      if Protected(path) {
        AuthIff(e.raw);
        ProtectedOutcome(s, path, e);
      }
    }
  }

  // ---- Runs

  ghost predicate AllServed(events: seq<Event>) {
    forall i :: 0 <= i < |events| ==> Served(events[i])
  }

  const START := Server(map[], Registry.EMPTY)

  function After(events: seq<Event>): Server
    requires AllServed(events)
  {
    if events == [] then START else Dispatch(After(events[..|events| - 1]), events[|events| - 1]).0
  }

  /** What each request of a run came to. */
  function Outcomes(events: seq<Event>): (r: seq<Outcome>)
    requires AllServed(events)
    ensures |r| == |events|
  {
    if events == [] then [] else
    var front := events[..|events| - 1];
    Outcomes(front) + [Dispatch(After(front), events[|events| - 1]).1]
  }

  // ---- The session theorem

  /** An /admin/ request carrying the id with valid Basic credentials. */
  ghost predicate Grants(e: Event, id: string)
    requires Served(e)
  {
    && id != "" && RequestFields.SessionId(e.raw) == id
    && PathOf(e).Some? && "/admin/" <= PathOf(e).value && Presents(e)
  }

  /** Some grant of the id has not been followed by a mint of it. */
  ghost predicate GrantedSinceMint(events: seq<Event>, id: string)
    requires AllServed(events)
  {
    exists k :: 0 <= k < |events| && Grants(events[k], id) && NotMintedAfter(Outcomes(events), k, id)
  }

  ghost predicate NotMintedAfter(outcomes: seq<Outcome>, k: nat, id: string) {
    forall j :: k < j < |outcomes| ==> outcomes[j].minted != Some(id)
  }

  /**
   An id reads as authenticated exactly when, since it was last minted, some admin request
   carrying it presented valid credentials.
   */
  lemma {:induction false} SessionHistory(events: seq<Event>, id: string)
    requires AllServed(events)
    ensures SessionData(After(events).sessions, id) == "authenticated:admin" <==> GrantedSinceMint(events, id)
    decreases |events|
  {
    hide Dispatch, PathOf, RequireBasicAuth, Served;
    if events == [] {
    } else {
      var n := |events| - 1;
      var front, e := events[..n], events[n];
      SessionHistory(front, id);
      DispatchShape(After(front), e, id);
      GrantedSnoc(events, id);
    }
  }

  lemma NotMintedSnoc(outcomes: seq<Outcome>, k: nat, id: string)
    requires k < |outcomes|
    ensures var n := |outcomes| - 1;
            NotMintedAfter(outcomes, k, id) <==>
            k == n || (NotMintedAfter(outcomes[..n], k, id) && outcomes[n].minted != Some(id))
  {
    var n := |outcomes| - 1;
    assert forall j :: k < j < n ==> outcomes[..n][j] == outcomes[j];
  }

  lemma OutcomesSnoc(events: seq<Event>)
    requires AllServed(events) && events != []
    ensures var n := |events| - 1;
            && AllServed(events[..n])
            && Outcomes(events)[..n] == Outcomes(events[..n])
            && Outcomes(events)[n] == Dispatch(After(events[..n]), events[n]).1
  {
    hide Dispatch, After, Served;
  }

  lemma GrantKept(events: seq<Event>, n: nat, id: string)
    requires AllServed(events) && |events| == n + 1 && AllServed(events[..n])
    requires GrantedSinceMint(events[..n], id) && Outcomes(events)[n].minted != Some(id)
    ensures GrantedSinceMint(events, id)
  {
    OutcomesSnoc(events);
    hide Grants, Dispatch, After, Served, NotMintedAfter, Outcomes;
    var k: nat :| k < n && Grants(events[..n][k], id) && NotMintedAfter(Outcomes(events[..n]), k, id);
    NotMintedSnoc(Outcomes(events), k, id);
    assert Grants(events[k], id);
  }

  lemma GrantWasThere(events: seq<Event>, n: nat, id: string)
    requires AllServed(events) && |events| == n + 1 && AllServed(events[..n])
    requires GrantedSinceMint(events, id) && !Grants(events[n], id)
    ensures GrantedSinceMint(events[..n], id) && Outcomes(events)[n].minted != Some(id)
  {
    OutcomesSnoc(events);
    hide Grants, Dispatch, After, Served, NotMintedAfter, Outcomes;
    var k: nat :| k <= n && Grants(events[k], id) && NotMintedAfter(Outcomes(events), k, id);
    NotMintedSnoc(Outcomes(events), k, id);
    assert Grants(events[..n][k], id);
  }

  lemma GrantedSnoc(events: seq<Event>, id: string)
    requires AllServed(events) && events != []
    ensures var n := |events| - 1;
            GrantedSinceMint(events, id) <==>
            Grants(events[n], id) || (GrantedSinceMint(events[..n], id) && Outcomes(events)[n].minted != Some(id))
  {
    hide Grants, Dispatch, After, Served, Outcomes;
    var n := |events| - 1;
    if Grants(events[n], id) {
      assert NotMintedAfter(Outcomes(events), n, id);
    } else if GrantedSinceMint(events, id) {
      GrantWasThere(events, n, id);
    } else if GrantedSinceMint(events[..n], id) && Outcomes(events)[n].minted != Some(id) {
      GrantKept(events, n, id);
    }
  }

  /** Some request of the run granted the id, or was answered with it as a fresh one. */
  ghost predicate Seen(events: seq<Event>, id: string)
    requires AllServed(events)
  {
    events != [] &&
    var n := |events| - 1;
    Seen(events[..n], id) || Grants(events[n], id) || Outcomes(events)[n].minted == Some(id)
  }

  /** What a session may hold: one of the two values, or what it held before. */
  predicate Holds(sessions: Sessions, before: Sessions, x: string) {
    x in sessions ==>
      sessions[x] in {"authenticated:admin", "default_user_data"} || (x in before && sessions[x] == before[x])
  }

  lemma ServeKeys(s: Server, path: string, id: string, e: Event, x: string)
    ensures var (t, outcome) := ServePath(s, path, id, e);
            (x in t.sessions <==> x in s.sessions || outcome.minted == Some(x)) && Holds(t.sessions, s.sessions, x)
  {
    hide Registry.Lookup;
  }

  lemma AuthorizeKeys(sessions: Sessions, raw: string, whoami: bool, id: string, x: string)
    requires |AuthHeader(raw)| != Credentials.PREFIX
    ensures var after := Authorize(sessions, raw, whoami, id).0;
            && (x in after <==>
                  x in sessions || (RequireBasicAuth(raw) == Granted && !whoami && id != "" && x == id))
            && Holds(after, sessions, x)
  {
    hide RequireBasicAuth;
  }

  lemma ProtectedKeys(s: Server, path: string, e: Event, x: string)
    requires |AuthHeader(e.raw)| != Credentials.PREFIX
    ensures var (t, outcome) := DispatchProtected(s, path, e);
            var id := RequestFields.SessionId(e.raw);
            && (x in t.sessions <==>
                  || x in s.sessions || outcome.minted == Some(x)
                  || (RequireBasicAuth(e.raw) == Granted && path != WHOAMI && id != "" && x == id))
            && Holds(t.sessions, s.sessions, x)
  {
    hide RequireBasicAuth, Authorize, RequestFields.SessionId, RunAdmin, ServePath, IsAdminRoute;
    var id := RequestFields.SessionId(e.raw);
    AuthorizeShape(s.sessions, e.raw, path == WHOAMI, id, x);
    AuthorizeKeys(s.sessions, e.raw, path == WHOAMI, id, x);
    var t := s.(sessions := Authorize(s.sessions, e.raw, path == WHOAMI, id).0);
    ServeKeys(t, path, id, e, x);
    RunAdminShape(t, path, e, s.sessions);
  }

  lemma DispatchKeys(s: Server, e: Event, x: string)
    requires Served(e)
    ensures var (t, outcome) := Dispatch(s, e);
            && (x in t.sessions <==> x in s.sessions || Grants(e, x) || outcome.minted == Some(x))
            && Holds(t.sessions, s.sessions, x)
  {
    hide ValidCredentials, RequireBasicAuth, RequestFields.SessionId, HttpRequest.ParseRequest, OpenRoute,
         DispatchProtected, ServePath;
    if PathOf(e).Some? {
      var path, id := PathOf(e).value, RequestFields.SessionId(e.raw);
      PathClasses(path);
      if Protected(path) {
        AuthIff(e.raw);
        ProtectedKeys(s, path, e, x);
      }
      ServeKeys(s, path, id, e, x);
    }
  }

  /** The session map knows exactly the ids the run has granted or minted, and only two values. */
  lemma {:induction false} SessionsKnown(events: seq<Event>, id: string)
    requires AllServed(events)
    ensures id in After(events).sessions <==> Seen(events, id)
    ensures id in After(events).sessions ==>
              After(events).sessions[id] in {"authenticated:admin", "default_user_data"}
    decreases |events|
  {
    hide Dispatch, Served, Grants;
    if events == [] {
    } else {
      var n := |events| - 1;
      OutcomesSnoc(events);
      SessionsKnown(events[..n], id);
      DispatchKeys(After(events[..n]), events[n], id);
    }
  }

  /** Who may reach an admin handler: valid credentials or, except on /whoami, a granted session. */
  ghost predicate Authorized(events: seq<Event>, e: Event, route: string)
    requires AllServed(events) && Served(e)
  {
    || Presents(e)
    || (route != "/whoami" && GrantedSinceMint(events, RequestFields.SessionId(e.raw)))
  }

  /** An admin handler runs exactly for an authorised request whose path is its route. */
  lemma AdminIffAuthorized(events: seq<Event>, e: Event, route: string)
    requires AllServed(events) && Served(e)
    ensures Dispatch(After(events), e).1.handler == Admin(route)
       <==> route in AdminPaths() && PathOf(e) == Some(route) && Authorized(events, e, route)
  {
    AdminRoutes(route);
    hide RequireBasicAuth, ValidCredentials, Dispatch, PathOf, RunAdmin, RequestFields.SessionId, Registry.Lookup,
         Served, After, IsAdminRoute;
    var id := RequestFields.SessionId(e.raw);
    SessionHistory(events, id);
    DispatchShape(After(events), e, id);
  }

  // ---- /whoami

  function WhoamiOutcome(auth: Auth): Outcome {
    Outcome(match auth case Granted => Admin(WHOAMI) case Denied => Unauthorized case Threw => Aborted, None)
  }

  lemma WhoamiIsAdmin(s: Server, e: Event)
    ensures IsAdminRoute(WHOAMI) && RunAdmin(s, WHOAMI, e) == s
  {
    assert WHOAMI != ADD_RULE && WHOAMI != UPDATE_RULE by {
      assert WHOAMI[1] != ADD_RULE[1] && WHOAMI[1] != UPDATE_RULE[1];
    }
    hide Registry.Apply, Registry.AddOp, Registry.UpdateOp, RequestFields.QueryParams, Served;
  }

  lemma ProtectedWhoami(s: Server, e: Event)
    requires |AuthHeader(e.raw)| != Credentials.PREFIX
    ensures DispatchProtected(s, WHOAMI, e) == (s, WhoamiOutcome(RequireBasicAuth(e.raw)))
  {
    hide RequireBasicAuth, ValidCredentials, RequestFields.SessionId, RunAdmin, ServePath, IsAdminRoute;
    var id := RequestFields.SessionId(e.raw);
    WhoamiIsAdmin(s, e);
    assert Authorize(s.sessions, e.raw, true, id) == (s.sessions, RequireBasicAuth(e.raw));
    hide Authorize, Served;
  }

  /**
   /whoami reads and changes no session: its answer is decided by the request's own
   credentials alone, in every state, and the state stays as it was.
   */
  lemma WhoamiIgnoresSessions(s: Server, e: Event)
    requires Served(e) && PathOf(e) == Some("/whoami")
    ensures Dispatch(s, e) == (s, WhoamiOutcome(RequireBasicAuth(e.raw)))
  {
    PathClasses(WHOAMI);
    ProtectedWhoami(s, e);
    hide RequireBasicAuth, ValidCredentials, HttpRequest.ParseRequest, OpenRoute, DispatchProtected, ServePath,
         WhoamiOutcome;
  }

  // ---- The registry of a run

  /** The registry operation one request performed, if any. */
  function OpOf(handler: Handler, e: Event): seq<Registry.Op> {
    var params := RequestFields.QueryParams(e.raw);
    if handler == Admin(ADD_RULE) then [Registry.AddOp(params)]
    else if handler == Admin(UPDATE_RULE) then [Registry.UpdateOp(params)]
    else []
  }

  /** The registry operations the admin handlers of a run performed. */
  function Ops(events: seq<Event>): seq<Registry.Op>
    requires AllServed(events)
  {
    if events == [] then [] else
    var n := |events| - 1;
    Ops(events[..n]) + OpOf(Outcomes(events)[n].handler, events[n])
  }

  lemma RegistryStep(s: Server, e: Event)
    requires Served(e)
    ensures var (t, outcome) := Dispatch(s, e);
            var ops := OpOf(outcome.handler, e);
            t.rules == if ops == [] then s.rules else Registry.Apply(s.rules, ops[0])
  {
    DispatchShape(s, e, "");
    hide Dispatch, PathOf, Registry.Apply, Registry.AddOp, Registry.UpdateOp, RequestFields.QueryParams,
         IsAdminRoute, RequireBasicAuth, RequestFields.SessionId, Registry.Lookup;
  }

  /** The registry of a run is the one its authorised add and update requests build. */
  lemma {:induction false} RegistryFollows(events: seq<Event>)
    requires AllServed(events)
    ensures After(events).rules == Registry.After(Ops(events))
    decreases |events|
  {
    if events == [] {
    } else {
      var n := |events| - 1;
      var front := events[..n];
      OutcomesSnoc(events);
      RegistryFollows(front);
      RegistryStep(After(front), events[n]);
      var last := OpOf(Outcomes(events)[n].handler, events[n]);
      OpOfLength(Outcomes(events)[n].handler, events[n]);
      assert Ops(events) == Ops(front) + last;
      hide Ops, Dispatch, Registry.Apply, OpOf, Served, Outcomes;
      if last == [] {
        assert Ops(events) == Ops(front);
      } else {
        assert last == [last[0]];
        Registry.AfterSnoc(Ops(front), last[0]);
      }
    }
  }

  lemma OpOfLength(handler: Handler, e: Event)
    ensures |OpOf(handler, e)| <= 1
  {
    hide Served, Registry.AddOp, Registry.UpdateOp, RequestFields.QueryParams;
  }

  /** The request names the path and a known type. */
  predicate Names(e: Event, path: string) {
    var params := RequestFields.QueryParams(e.raw);
    Registry.Param(params, "path") == path && Registry.Param(params, "type") in {"static", "cgi"}
  }

  function TypeParam(e: Event): string {
    Registry.Param(RequestFields.QueryParams(e.raw), "type")
  }

  /** The object an add request describes: its decoded directory or executable, by its type. */
  function Described(e: Event, path: string): Registry.Route {
    var params := RequestFields.QueryParams(e.raw);
    if TypeParam(e) == "static" then Registry.StaticRoute(path, Percent.Decoded(Registry.Param(params, "directory")))
    else Registry.CgiRoute(path, Percent.Decoded(Registry.Param(params, "executable")))
  }

  /** The first executed add request of a run that names a path. */
  function FirstAdding(events: seq<Event>, path: string): Option<Event>
    requires AllServed(events)
  {
    if events == [] then None else
    var n := |events| - 1;
    var before := FirstAdding(events[..n], path);
    if before.Some? then before
    else if Outcomes(events)[n].handler == Admin("/admin/add_rule") && Names(events[n], path) then Some(events[n])
    else None
  }

  /** The type named last for a path: by an executed add, or an executed update once the path was added. */
  function LastType(events: seq<Event>, path: string): Option<string>
    requires AllServed(events)
  {
    if events == [] then None else
    var n := |events| - 1;
    var handler := Outcomes(events)[n].handler;
    if Names(events[n], path)
       && (handler == Admin("/admin/add_rule")
           || (handler == Admin("/admin/update_rule") && FirstAdding(events[..n], path).Some?))
    then Some(TypeParam(events[n]))
    else LastType(events[..n], path)
  }

  /** What one executed operation does to a path. */
  lemma OpEffect(rules: Registry.Rules, handler: Handler, e: Event, path: string)
    ensures var ops := OpOf(handler, e);
            var after := if ops == [] then rules else Registry.Apply(rules, ops[0]);
            var adds := handler == Admin("/admin/add_rule") && Names(e, path);
            var updates := handler == Admin("/admin/update_rule") && Names(e, path);
            && (path in after.tags <==> path in rules.tags || adds)
            && (path in after.tags ==>
                  after.tags[path] ==
                  if adds || updates then (if TypeParam(e) == "cgi" then Registry.CGI else Registry.STATIC)
                  else rules.tags[path])
            && Registry.FirstRule(after.rules, path) ==
               (if Registry.FirstRule(rules.rules, path).Some? then Registry.FirstRule(rules.rules, path)
                else if adds then Some(Described(e, path)) else None)
  {
    hide Percent.Decoded, RequestFields.QueryParams, Registry.FirstRule;
    assert "/admin/add_rule" != "/admin/update_rule" && "static" != "cgi";
    var ops := OpOf(handler, e);
    if ops != [] {
      var after := Registry.Apply(rules, ops[0]);
      if after.rules != rules.rules {
        Registry.FirstRuleAppend(rules.rules, after.rules[|rules.rules|], path);
      }
    }
  }

  /** A run's registry, read off its executed requests: the first rule of each path and its tag. */
  lemma {:induction false} RegistryByRequests(events: seq<Event>, path: string)
    requires AllServed(events)
    ensures var rules, first := After(events).rules, FirstAdding(events, path);
            && (path in rules.tags <==> first.Some?)
            && (LastType(events, path).Some? <==> first.Some?)
            && (first.Some? ==> (rules.tags[path] == Registry.CGI <==> LastType(events, path) == Some("cgi")))
            && Registry.FirstRule(rules.rules, path) ==
               (if first.Some? then Some(Described(first.value, path)) else None)
    decreases |events|
  {
    if events == [] {
    } else {
      var n := |events| - 1;
      var front, e := events[..n], events[n];
      OutcomesSnoc(events);
      RegistryByRequests(front, path);
      RegistryStep(After(front), e);
      OpEffect(After(front).rules, Outcomes(events)[n].handler, e, path);
      hide Dispatch, Served, OpOf, Outcomes, Names, TypeParam, Described, Registry.Apply, Registry.FirstRule;
    }
  }

  /** The payload of every executed add is one the decoder can read. */
  lemma {:induction false} AddedReadable(events: seq<Event>, path: string)
    requires AllServed(events) && FirstAdding(events, path).Some?
    ensures Registry.PayloadReadable(RequestFields.QueryParams(FirstAdding(events, path).value.raw))
    decreases |events|
  {
    var n := |events| - 1;
    OutcomesSnoc(events);
    if FirstAdding(events[..n], path).Some? {
      AddedReadable(events[..n], path);
    } else {
      DispatchShape(After(events[..n]), events[n], "");
      hide Dispatch, Names, Registry.PayloadReadable, RequestFields.QueryParams, PathOf, Presents;
    }
  }

  lemma ChosenFor(events: seq<Event>, path: string)
    requires AllServed(events)
    ensures var rule, first := Registry.Lookup(After(events).rules, path), FirstAdding(events, path);
            && (rule.Some? <==> "/cgi-bin/" <= path && LastType(events, path) == Some("cgi"))
            && (rule.Some? ==> first.Some? && rule.value == Described(first.value, path))
  {
    hide After, Served, LastType, FirstAdding, Described, Registry.FirstRule;
    RegistryByRequests(events, path);
  }

  /**
   A rule is executed exactly for a CGI path whose last executed add or update named the type
   "cgi"; it is the object its first executed add describes, with that request's decoded
   executable when the type named there was "cgi", and its directory otherwise.
   */
  lemma ExecutedRule(events: seq<Event>, e: Event)
    requires AllServed(events) && Served(e)
    ensures var handler, path := Dispatch(After(events), e).1.handler, PathOf(e);
            && (handler.Execute? <==>
                  && path.Some? && "/cgi-bin/" <= path.value
                  && LastType(events, path.value) == Some("cgi"))
            && (handler.Execute? ==>
                  var first := FirstAdding(events, path.value);
                  first.Some? && handler.rule == Described(first.value, path.value))
  {
    assert HttpRequest.PathFits(e.raw);
    hide Dispatch, After, PathOf, Served, Registry.Lookup, FirstAdding, LastType, Described, HttpRequest.PathFits,
         OpenRoute, Protected, Admitted, IsAdminRoute;
    DispatchOutcome(After(events), e);
    if PathOf(e).Some? {
      ChosenFor(events, PathOf(e).value);
    }
  }

  /** The registry changes only on an authorised admin request. */
  lemma RegistryChangesOnlyAuthorized(events: seq<Event>, e: Event)
    requires AllServed(events) && Served(e)
    requires Dispatch(After(events), e).0.rules != After(events).rules
    ensures PathOf(e) in {Some("/admin/add_rule"), Some("/admin/update_rule")} && Authorized(events, e, PathOf(e).value)
  {
    hide RequireBasicAuth, ValidCredentials, Dispatch, PathOf, RunAdmin, RequestFields.SessionId, Registry.Lookup,
         After, IsAdminRoute;
    DispatchShape(After(events), e, "");
    RunAdminShape(After(events), PathOf(e).value, e, map[]);
    AdminIffAuthorized(events, e, PathOf(e).value);
  }

  // ---- The router over its globals

  /** The globals dispatch works on, updated in place. */
  class Dispatcher {
    var sessions: Sessions
    const registry: Registry.RouteRegistry
    const codec: Base64.Codec

    ghost function State(): Server
      reads this, registry
    {
      Server(sessions, registry.State())
    }

    ghost predicate Valid()
      reads this, registry, codec, codec.decodingTable
    {
      Registry.Covered(registry.State()) && codec.Valid()
    }

    constructor ()
      ensures Valid() && State() == START && fresh(registry) && fresh(codec)
    {
      sessions := map[];
      registry := new Registry.RouteRegistry();
      codec := new Base64.Codec();
    }

    method SetSessionData(id: string, data: string)
      modifies this`sessions
      ensures sessions == old(sessions)[id := data]
    {
      sessions := sessions[id := data];
    }

    method RequireAuth(raw: string) returns (auth: Auth)
      requires codec.Valid() && |AuthHeader(raw)| != Credentials.PREFIX
      requires forall i :: 0 <= i < |raw| ==> raw[i] as int < 256
      modifies codec
      ensures codec.Valid() && auth == RequireBasicAuth(raw)
    {
      hide Credentials.Extract;
      var header := RequestFields.ExtractHeaderValue(raw, "Authorization:");
      if header == "" {
        return Denied;
      }
      HeaderBytes(raw);
      var credentials := Credentials.ExtractUsernamePassword(codec, header);
      match credentials
      case Threw => auth := Auth.Threw;
      case Rejected => auth := Denied;
      case Accepted(user, password) =>
        auth := if user == "admin" && password == "admin" then Granted else Denied;
    }

    /** The admin handlers that change the registry; the others change nothing modelled here. */
    method RunHandler(route: string, e: Event)
      requires Valid() && (route == ADD_RULE ==> Registry.PayloadReadable(RequestFields.QueryParams(e.raw)))
      modifies registry
      ensures Valid() && State() == RunAdmin(old(State()), route, e)
    {
      hide Registry.Covered, Registry.Apply, Registry.AddOp, Registry.UpdateOp, RequestFields.QueryParams;
      var params := RequestFields.ExtractQueryParameters(e.raw);
      if route == ADD_RULE {
        var _ := registry.AddRule(params);
      } else if route == UPDATE_RULE {
        var _ := registry.UpdateRule(params);
      }
    }

    /** The end of dispatch: a CGI rule, else a static file, with a session for a visitor without one. */
    method Serve(path: string, id: string, e: Event) returns (outcome: Outcome)
      requires Valid()
      modifies this`sessions, registry
      ensures Valid() && (State(), outcome) == ServePath(old(State()), path, id, e)
    {
      hide Registry.Covered, Registry.Lookup;
      var rule := registry.CgiDispatch(path);
      if rule.Some? {
        return Outcome(Execute(rule.value), None);
      }
      var minted := None;
      if id == "" {
        minted := Some(e.freshId);
        SetSessionData(e.freshId, DEFAULT_DATA);
      }
      outcome := Outcome(Static, minted);
    }

    /** dispatch: an early-return chain that does what Dispatch says. */
    method HandleRequest(e: Event) returns (outcome: Outcome)
      requires Served(e) && Valid() && forall i :: 0 <= i < |e.raw| ==> e.raw[i] as int < 256
      modifies this`sessions, registry, codec
      ensures Valid() && (State(), outcome) == Dispatch(old(State()), e)
    {
      hide Registry.Covered, Registry.Lookup, RequireBasicAuth, RunAdmin, ServePath, HttpRequest.ParseRequest,
           RequestFields.SessionId, Text.CString;
      var request := new HttpRequest.RequestObject();
      var ok := request.ParseInto(e.raw);
      if !ok {
        return Outcome(if request.method_ != "" then MethodNotAllowed else BadRequest, None);
      }
      var path := Text.CString(request.cleanPath[..]);
      if path == "/status" { return Outcome(Status, None); }
      if path == "/logs" { return Outcome(Logs, None); }
      if path == "/echo" { return Outcome(Echo, None); }
      if path == "/cgi-helper" { return Outcome(CgiHelper, None); }
      var id := RequestFields.SessionId(e.raw);
      if ADMIN_PREFIX <= path || path == WHOAMI {
        var whoami := path == WHOAMI;
        if !(!whoami && id != "" && SessionData(sessions, id) == AUTHENTICATED) {
          var auth := RequireAuth(e.raw);
          if auth == Threw { return Outcome(Aborted, None); }
          if auth == Denied { return Outcome(Unauthorized, None); }
          if !whoami && id != "" {
            SetSessionData(id, AUTHENTICATED);
          }
        }
        if IsAdminRoute(path) {
          RunHandler(path, e);
          return Outcome(Admin(path), None);
        }
      }
      outcome := Serve(path, id, e);
    }
  }

  lemma HeaderBytes(raw: string)
    requires forall i :: 0 <= i < |raw| ==> raw[i] as int < 256
    ensures forall i :: 0 <= i < |AuthHeader(raw)| ==> AuthHeader(raw)[i] as int < 256
  {
  }
}
