/** The JSON document every handler loads, changes and saves: session
    counters, accounts, query events and login events. */
module Store {
  import opened Results

  /** `users[session_id]`: questions asked in a session and the IP that opened it. */
  datatype Session = Session(count: int, ip: string)

  /** One element of `registered_users`. The fields the handlers read with
      `.get(key, default)` may be missing from a stored account. */
  datatype Account = Account(
    name: string,
    email: string,
    phone: Option<string>,
    passwordHash: Option<string>,
    registeredAt: Option<string>,
    signupIp: string,
    signupUserAgent: string,
    lastLogin: string,
    lastLoginIp: string,
    loginCount: Option<int>)

  /** One element of `queries`. */
  datatype QueryEvent = QueryEvent(sessionId: string, question: string, ip: string, timestamp: Option<string>)

  /** One element of `login_logs`. */
  datatype LoginEvent = LoginEvent(email: string, timestamp: Option<string>, ip: string, userAgent: string)

  /** The whole document, with its four top-level collections. */
  datatype Document = Document(
    users: map<string, Session>,
    registeredUsers: seq<Account>,
    queries: seq<QueryEvent>,
    loginLogs: seq<LoginEvent>)

  /** What `load_data` returns when the file is missing or unreadable. */
  const EmptyDocument := Document(map[], [], [], [])

  /** The dictionary a handler has loaded and is changing in place. */
  class Data {
    var users: map<string, Session>
    var registeredUsers: seq<Account>
    var queries: seq<QueryEvent>
    var loginLogs: seq<LoginEvent>

    /** `data = load_data()`, given what the file holds. */
    constructor Load(d: Document)
      ensures Saved() == d
    {
      users := d.users;
      registeredUsers := d.registeredUsers;
      queries := d.queries;
      loginLogs := d.loginLogs;
    }

    /** What `save_data(data)` writes. */
    function Saved(): Document
      reads this
    {
      Document(users, registeredUsers, queries, loginLogs)
    }
  }
}
