/** The request handlers as the service runs them: load the document, change
    the loaded copy in place step by step, and save it, or raise before saving.
    Each is proved to do what the matching transition function says. */
module Handlers {
  import opened Results
  import opened Text
  import opened Store
  import opened Client
  import Accounts
  import Asking

  /** What a handler leaves behind: its reply, and what the file holds afterwards
      (the saved document, or the untouched one when it raised). */
  function Persisted<T>(stored: Document, r: Result<(Document, T)>): (Result<T>, Document) {
    match r
    case Ok((d, v)) => (Ok(v), d)
    case Err(e) => (Err(e), stored)
  }

  /** `signup`. */
  method Signup(stored: Document, req: Accounts.SignupRequest, request: Request, now: string, hash: Accounts.Hasher)
    returns (reply: Result<Accounts.UserView>, saved: Document)
    ensures (reply, saved) == Persisted(stored, Accounts.Signup(stored, req, GetClientInfo(request), now, hash))
    ensures reply.Err? ==> saved == stored
  {
    if Strip(req.name) == [] || Strip(req.email) == [] || req.password == [] {
      return Err(Accounts.FieldsRequired), stored;
    }
    if |req.password| < Accounts.MinPasswordLength {
      return Err(Accounts.PasswordTooShort), stored;
    }
    var data := new Data.Load(stored);
    var emailLower := Strip(Lower(req.email));
    Accounts.FoundIffTaken(data.registeredUsers, req.email);
    if exists i :: 0 <= i < |data.registeredUsers| && Lower(data.registeredUsers[i].email) == emailLower {
      return Err(Accounts.EmailRegistered), stored;
    }
    var info := GetClientInfo(request);
    var user := Account(Strip(req.name), Strip(req.email), Some(Strip(req.phone)), Some(hash(req.password)),
                        Some(now), info.ip, info.userAgent, now, info.ip, Some(1));
    data.registeredUsers := data.registeredUsers + [user];
    saved := data.Saved();
    reply := Ok(Accounts.UserView(user.name, user.email, Strip(req.phone), true));
  }

  /** `login`. */
  method Login(stored: Document, req: Accounts.LoginRequest, request: Request, now: string, hash: Accounts.Hasher)
    returns (reply: Result<Accounts.UserView>, saved: Document)
    ensures (reply, saved) == Persisted(stored, Accounts.Login(stored, req, GetClientInfo(request), now, hash))
    ensures reply.Err? ==> saved == stored
  {
    if Strip(req.email) == [] || req.password == [] {
      return Err(Accounts.CredentialsRequired), stored;
    }
    var data := new Data.Load(stored);
    var emailLower := Strip(Lower(req.email));
    var found := Accounts.FindAccount(data.registeredUsers, emailLower);
    if found.None? {
      return Err(Accounts.NoAccount), stored;
    }
    var i := found.value;
    if data.registeredUsers[i].passwordHash != Some(hash(req.password)) {
      return Err(Accounts.WrongPassword), stored;
    }
    var info := GetClientInfo(request);
    var user := data.registeredUsers[i];
    user := user.(lastLogin := now);
    user := user.(lastLoginIp := info.ip);
    user := user.(loginCount := Some(user.loginCount.GetOr(0) + 1));
    assert user == Accounts.RecordLogin(stored.registeredUsers[i], now, info.ip);
    data.registeredUsers := data.registeredUsers[i := user];
    data.loginLogs := data.loginLogs + [LoginEvent(req.email, Some(now), info.ip, info.userAgent)];
    saved := data.Saved();
    reply := Ok(Accounts.UserView(user.name, user.email, user.phone.GetOr(""), true));
  }

  /** `ask_question`, with the search results and the generator given. */
  method Ask(stored: Document, q: Asking.Question, request: Request, matches: seq<Asking.Match>,
             generate: Asking.Generator, now: string)
    returns (reply: Result<Asking.AskReply>, saved: Document)
    ensures (reply, saved) == Persisted(stored, Asking.Ask(stored, q, GetClientInfo(request), matches, generate, now))
    ensures reply.Err? ==> saved == stored
  {
    if Strip(q.question) == [] {
      return Err(Asking.QuestionRequired), stored;
    }
    var info := GetClientInfo(request);
    var data := new Data.Load(stored);
    if q.sessionId !in data.users {
      data.users := data.users[q.sessionId := Session(0, info.ip)];
    }
    var user := data.users[q.sessionId];
    assert user == Asking.SessionFor(stored, q.sessionId, info);
    ghost var counted := user.(count := user.count + 1);
    assert data.users[q.sessionId := counted] == stored.users[q.sessionId := counted];
    if matches == [] {
      data.users := data.users[q.sessionId := user.(count := user.count + 1)];
      saved := data.Saved();
      reply := Ok(Asking.AskReply(Asking.FallbackAnswer, [], Asking.QuotaLimit - data.users[q.sessionId].count));
      return;
    }
    var context := Asking.Context(matches);
    var sources := Asking.Sources(matches);
    var answer := generate(context, q.question);
    if answer.Err? {
      return Err(answer.error), stored;
    }
    data.users := data.users[q.sessionId := user.(count := user.count + 1)];
    data.queries := data.queries + [QueryEvent(q.sessionId, q.question, info.ip, Some(now))];
    saved := data.Saved();
    reply := Ok(Asking.AskReply(answer.value, Asking.Returned(sources), Asking.QuotaLimit - data.users[q.sessionId].count));
  }
}
