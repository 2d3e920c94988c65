/** The admin endpoints: password check, leads, stats and the query log. */
module Admin {
  import opened Results
  import opened Text
  import opened Sorting
  import opened Store
  import Accounts
  import Asking
  import Client

  /** What `ADMIN_PASSWORD` is when the environment does not set it. */
  const DefaultAdminPassword := "changeme123"
  /** How many query events `admin_queries` returns at most. */
  const QueryLimit := 500

  const InvalidPassword := HttpError(401, "Invalid password")
  const Unauthorized := HttpError(401, "Unauthorized")

  /** `os.environ.get("ADMIN_PASSWORD", "changeme123")`. */
  function AdminPassword(env: Option<string>): string {
    env.GetOr(DefaultAdminPassword)
  }

  /** With `ADMIN_PASSWORD` unset, exactly "changeme123" opens the admin endpoints; otherwise exactly its value. */
  lemma AdminSecret(env: Option<string>, password: string)
    ensures AdminAuth(password, AdminPassword(env)).Ok?
        <==> (if env.None? then password == "changeme123" else password == env.value)
  {
  }

  /** `admin_auth`: `{"success": True}` for the right password only. */
  function AdminAuth(password: string, secret: string): (r: Result<bool>)
    ensures r.Ok? <==> password == secret
    ensures r.Ok? ==> r.value
    ensures r.Err? ==> r.error == InvalidPassword
  {
    if password != secret then Err(InvalidPassword) else Ok(true)
  }

  /** An account as `admin_leads` reports it: every key but `password_hash`. */
  datatype Lead = Lead(
    name: string,
    email: string,
    phone: Option<string>,
    registeredAt: Option<string>,
    signupIp: string,
    signupUserAgent: string,
    lastLogin: string,
    lastLoginIp: string,
    loginCount: Option<int>)

  /** `{k: v for k, v in u.items() if k != "password_hash"}`. */
  function StripHash(a: Account): (l: Lead)
    ensures WithHash(l, a.passwordHash) == a
  {
    Lead(a.name, a.email, a.phone, a.registeredAt, a.signupIp, a.signupUserAgent,
         a.lastLogin, a.lastLoginIp, a.loginCount)
  }

  /** The account a lead came from, given its hash back. */
  function WithHash(l: Lead, hash: Option<string>): Account {
    Account(l.name, l.email, l.phone, hash, l.registeredAt, l.signupIp, l.signupUserAgent,
            l.lastLogin, l.lastLoginIp, l.loginCount)
  }

  /** `x.get("registered_at", "")`, the sort key of accounts. */
  function RegisteredAtKey(a: Account): string {
    a.registeredAt.GetOr("")
  }

  /** The same key read from a lead. */
  function LeadKey(l: Lead): string {
    l.registeredAt.GetOr("")
  }

  datatype LeadsReply = LeadsReply(total: int, users: seq<Lead>)

  /** `admin_leads`. */
  function AdminLeads(password: string, secret: string, doc: Document): (r: Result<LeadsReply>)
    ensures r.Ok? <==> password == secret
    ensures r.Err? ==> r.error == Unauthorized
    // Every account once, without its hash, newest registration first.
    ensures r.Ok? ==>
      && r.value.total == |r.value.users| == |doc.registeredUsers|
      && multiset(r.value.users) == multiset(Map(doc.registeredUsers, StripHash))
      && SortedDesc(r.value.users, LeadKey)
  {
    if password != secret then Err(Unauthorized)
    else
      var users := SortDesc(doc.registeredUsers, RegisteredAtKey);
      var clean := Map(users, StripHash);
      SortMap(doc.registeredUsers, RegisteredAtKey, StripHash, LeadKey);
      Ok(LeadsReply(|clean|, clean))
  }

  /** Accounts registered at the same instant keep their stored order. */
  lemma LeadsStable(password: string, secret: string, doc: Document, k: string)
    requires password == secret
    ensures var users := AdminLeads(password, secret, doc).value.users;
      WithKey(users, LeadKey, k) == WithKey(Map(doc.registeredUsers, StripHash), LeadKey, k)
  {
    SortMap(doc.registeredUsers, RegisteredAtKey, StripHash, LeadKey);
    SortStable(Map(doc.registeredUsers, StripHash), LeadKey, k);
  }

  /** How many elements of `s` carry a stamp starting with `today`. */
  function CountToday<T>(s: seq<T>, stamp: T -> string, today: string): (n: nat)
    ensures n <= |s|
  {
    if s == [] then 0
    else CountToday(s[..|s| - 1], stamp, today) + (if StartsWith(stamp(s[|s| - 1]), today) then 1 else 0)
  }

  /** The positions of the entries of `s` stamped today. */
  ghost function TodayIndices<T>(s: seq<T>, stamp: T -> string, today: string): set<int> {
    set i | 0 <= i < |s| && StartsWith(stamp(s[i]), today)
  }

  /** The count is the number of entries stamped today. */
  lemma {:induction false} CountTodayIndices<T>(s: seq<T>, stamp: T -> string, today: string)
    ensures CountToday(s, stamp, today) == |TodayIndices(s, stamp, today)|
  {
    if s == [] {
      assert TodayIndices(s, stamp, today) == {};
    } else {
      var last := |s| - 1;
      var init := s[..last];
      CountTodayIndices(init, stamp, today);
      assert forall i :: 0 <= i < last ==> init[i] == s[i];
      if StartsWith(stamp(s[last]), today) {
        assert TodayIndices(s, stamp, today) == TodayIndices(init, stamp, today) + {last};
        assert last !in TodayIndices(init, stamp, today);
      } else {
        assert TodayIndices(s, stamp, today) == TodayIndices(init, stamp, today);
      }
    }
  }

  /** Every element counts exactly when all of them are from today. */
  lemma {:induction false} CountTodayAll<T>(s: seq<T>, stamp: T -> string, today: string)
    ensures CountToday(s, stamp, today) == |s| <==> forall i :: 0 <= i < |s| ==> StartsWith(stamp(s[i]), today)
  {
    if s != [] {
      var init := s[..|s| - 1];
      CountTodayAll(init, stamp, today);
      assert forall i :: 0 <= i < |init| ==> init[i] == s[i];
    }
  }

  datatype Stats = Stats(
    totalUsers: int, totalQueries: int, totalLogins: int,
    usersToday: int, queriesToday: int, loginsToday: int)

  function LoginKey(e: LoginEvent): string {
    e.timestamp.GetOr("")
  }

  function QueryKey(q: QueryEvent): string {
    q.timestamp.GetOr("")
  }

  /** `admin_stats`, with `today` the current date in ISO form. */
  function AdminStats(password: string, secret: string, doc: Document, today: string): (r: Result<Stats>)
    ensures r.Ok? <==> password == secret
    ensures r.Err? ==> r.error == Unauthorized
    ensures r.Ok? ==> r.value == StatsOf(doc, today)
    // Each today figure counts the entries whose stamp starts with `today`.
    ensures r.Ok? ==>
      var s := r.value;
      && s.usersToday == |TodayIndices(doc.registeredUsers, RegisteredAtKey, today)|
      && s.queriesToday == |TodayIndices(doc.queries, QueryKey, today)|
      && s.loginsToday == |TodayIndices(doc.loginLogs, LoginKey, today)|
    ensures r.Ok? ==>
      var s := r.value;
      && s.totalUsers == |doc.registeredUsers|
      && s.totalQueries == |doc.queries|
      && s.totalLogins == |doc.loginLogs|
      && 0 <= s.usersToday <= s.totalUsers
      && 0 <= s.queriesToday <= s.totalQueries
      && 0 <= s.loginsToday <= s.totalLogins
  {
    if password != secret then Err(Unauthorized)
    else
      CountTodayIndices(doc.registeredUsers, RegisteredAtKey, today);
      CountTodayIndices(doc.queries, QueryKey, today);
      CountTodayIndices(doc.loginLogs, LoginKey, today);
      Ok(StatsOf(doc, today))
  }

  datatype QueriesReply = QueriesReply(total: int, queries: seq<QueryEvent>)

  /** `admin_queries`. */
  function AdminQueries(password: string, secret: string, doc: Document): (r: Result<QueriesReply>)
    ensures r.Ok? <==> password == secret
    ensures r.Err? ==> r.error == Unauthorized
    // All are counted; at most 500, newest first, are returned, and none left out is newer.
    ensures r.Ok? ==>
      var qs := r.value.queries;
      && r.value.total == |doc.queries|
      && |qs| == (if |doc.queries| <= QueryLimit then |doc.queries| else QueryLimit)
      && SortedDesc(qs, QueryKey)
      && multiset(qs) <= multiset(doc.queries)
      && (|doc.queries| <= QueryLimit ==> multiset(qs) == multiset(doc.queries))
      && (forall p, i ::
            p in multiset(doc.queries) - multiset(qs) && 0 <= i < |qs| ==> LexLe(QueryKey(p), QueryKey(qs[i])))
      // Queries logged at the same timestamp keep their log order, and the earliest logged survive the cut.
      && (forall k :: WithKey(qs, QueryKey, k) <= WithKey(doc.queries, QueryKey, k))
  {
    if password != secret then Err(Unauthorized)
    else
      var sorted := SortDesc(doc.queries, QueryKey);
      var n := if |sorted| <= QueryLimit then |sorted| else QueryLimit;
      var shown := sorted[..n];
      NewestShown(sorted, n);
      QueriesStable(doc.queries, n);
      Ok(QueriesReply(|sorted|, shown))
  }

  /** The first `n` of the sorted log hold, for each timestamp, the earliest logged queries with it, in log order. */
  lemma QueriesStable(queries: seq<QueryEvent>, n: nat)
    requires n <= |queries|
    ensures forall k :: WithKey(SortDesc(queries, QueryKey)[..n], QueryKey, k) <= WithKey(queries, QueryKey, k)
  {
    var sorted := SortDesc(queries, QueryKey);
    forall k ensures WithKey(sorted[..n], QueryKey, k) <= WithKey(queries, QueryKey, k) {
      WithKeyPrefix(sorted, n, QueryKey, k);
      SortStable(queries, QueryKey, k);
    }
  }

  /** The first `n` of a sorted sequence are newest: nothing behind them is newer. */
  lemma NewestShown(sorted: seq<QueryEvent>, n: nat)
    requires SortedDesc(sorted, QueryKey) && n <= |sorted|
    ensures SortedDesc(sorted[..n], QueryKey)
    ensures multiset(sorted[..n]) <= multiset(sorted)
    ensures n == |sorted| ==> sorted[..n] == sorted
    ensures forall p, i ::
      p in multiset(sorted) - multiset(sorted[..n]) && 0 <= i < n ==> LexLe(QueryKey(p), QueryKey(sorted[..n][i]))
  {
    assert sorted == sorted[..n] + sorted[n..];
    assert forall i :: 0 <= i < n ==> sorted[..n][i] == sorted[i];
    assert multiset(sorted) == multiset(sorted[..n]) + multiset(sorted[n..]);
    forall p, i | p in multiset(sorted) - multiset(sorted[..n]) && 0 <= i < n
      ensures LexLe(QueryKey(p), QueryKey(sorted[..n][i]))
    {
      assert p in multiset(sorted[n..]);
      var j :| 0 <= j < |sorted[n..]| && sorted[n..][j] == p;
      assert sorted[n + j] == p;
    }
  }

  // ------------------------------------------------- stats follow activity

  /** One more element adds one to the count exactly when it is from today. */
  lemma CountTodayAppend<T>(s: seq<T>, x: T, stamp: T -> string, today: string)
    ensures CountToday(s + [x], stamp, today)
         == CountToday(s, stamp, today) + (if StartsWith(stamp(x), today) then 1 else 0)
  {
    assert (s + [x])[..|s|] == s;
  }

  /** Replacing an element by one with the same stamp leaves the count alone. */
  lemma {:induction false} CountTodayUpdate<T>(s: seq<T>, i: nat, x: T, stamp: T -> string, today: string)
    requires i < |s| && stamp(x) == stamp(s[i])
    ensures CountToday(s[i := x], stamp, today) == CountToday(s, stamp, today)
  {
    var last := |s| - 1;
    if i < last {
      assert s[i := x][..last] == s[..last][i := x];
      CountTodayUpdate(s[..last], i, x, stamp, today);
    } else {
      assert s[i := x][..last] == s[..last];
    }
  }

  /** The figures `admin_stats` reports for `d`. */
  function StatsOf(d: Document, today: string): Stats {
    Stats(|d.registeredUsers|, |d.queries|, |d.loginLogs|,
          CountToday(d.registeredUsers, RegisteredAtKey, today),
          CountToday(d.queries, QueryKey, today),
          CountToday(d.loginLogs, LoginKey, today))
  }

  /** A signup adds one user, counted today when it happened today. */
  lemma SignupCounted(doc: Document, req: Accounts.SignupRequest, info: Client.ClientInfo, now: string,
                      hash: Accounts.Hasher, today: string)
    requires Accounts.Signup(doc, req, info, now, hash).Ok?
    ensures var before := StatsOf(doc, today);
      var after := StatsOf(Accounts.Signup(doc, req, info, now, hash).value.0, today);
      after == before.(totalUsers := before.totalUsers + 1,
                       usersToday := before.usersToday + (if StartsWith(now, today) then 1 else 0))
  {
    CountTodayAppend(doc.registeredUsers, Accounts.NewAccount(req, info, now, hash), RegisteredAtKey, today);
  }

  /** A login adds one login event, counted today when it happened today;
      updating the account keeps its signup date and so today's user count. */
  lemma LoginCounted(doc: Document, req: Accounts.LoginRequest, info: Client.ClientInfo, now: string,
                     hash: Accounts.Hasher, today: string)
    requires Accounts.Login(doc, req, info, now, hash).Ok?
    ensures var before := StatsOf(doc, today);
      var after := StatsOf(Accounts.Login(doc, req, info, now, hash).value.0, today);
      after == before.(totalLogins := before.totalLogins + 1,
                       loginsToday := before.loginsToday + (if StartsWith(now, today) then 1 else 0))
  {
    var i := Accounts.FindAccount(doc.registeredUsers, Accounts.EmailKey(req.email)).value;
    var a := doc.registeredUsers[i];
    CountTodayUpdate(doc.registeredUsers, i, Accounts.RecordLogin(a, now, info.ip), RegisteredAtKey, today);
    CountTodayAppend(doc.loginLogs, LoginEvent(req.email, Some(now), info.ip, info.userAgent), LoginKey, today);
  }

  /** An answered question adds one query event, counted today when asked
      today; the fallback reply for no matches logs nothing. */
  lemma AskCounted(doc: Document, q: Asking.Question, info: Client.ClientInfo, matches: seq<Asking.Match>,
                   generate: Asking.Generator, now: string, today: string)
    requires Asking.Ask(doc, q, info, matches, generate, now).Ok?
    ensures var before := StatsOf(doc, today);
      var after := StatsOf(Asking.Ask(doc, q, info, matches, generate, now).value.0, today);
      && (matches == [] ==> after == before)
      && (matches != [] ==>
            after == before.(totalQueries := before.totalQueries + 1,
                             queriesToday := before.queriesToday + (if StartsWith(now, today) then 1 else 0)))
  {
    if matches != [] {
      CountTodayAppend(doc.queries, QueryEvent(q.sessionId, q.question, info.ip, Some(now)), QueryKey, today);
    }
  }
}
