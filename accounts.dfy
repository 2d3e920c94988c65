/** `signup` and `login`: what each does to the document, as a function from
    the loaded document to the saved one, or to the error it raises (in which
    case nothing is saved). */
module Accounts {
  import opened Results
  import opened Text
  import opened Store
  import opened Client

  datatype SignupRequest = SignupRequest(name: string, email: string, phone: string, password: string)
  datatype LoginRequest = LoginRequest(email: string, password: string)

  /** The `user` object both endpoints return. */
  datatype UserView = UserView(name: string, email: string, phone: string, verified: bool)

  /** The one-way digest `hash_password` (SHA-256 in hex); any function will do. */
  type Hasher = string -> string

  const MinPasswordLength := 6

  const FieldsRequired := HttpError(400, "All fields required")
  const PasswordTooShort := HttpError(400, "Password must be at least 6 characters")
  const EmailRegistered := HttpError(400, "Email already registered. Please log in.")
  const CredentialsRequired := HttpError(400, "Email and password required")
  const NoAccount := HttpError(401, "No account found. Please sign up first.")
  const WrongPassword := HttpError(401, "Incorrect password")

  /** `email.lower().strip()`: what a requested email is compared by. */
  function EmailKey(email: string): string {
    Strip(Lower(email))
  }

  /** `u["email"].lower() == key`. */
  predicate Matches(a: Account, key: string) {
    Lower(a.email) == key
  }

  /** `any(u["email"].lower() == email_lower for u in accounts)`. */
  predicate EmailTaken(accounts: seq<Account>, email: string) {
    exists i :: 0 <= i < |accounts| && Matches(accounts[i], EmailKey(email))
  }

  /** `next((u for u in accounts if ...), None)`, as the index of that account. */
  function FindAccount(accounts: seq<Account>, key: string): (r: Option<nat>)
    ensures r.Some? ==> r.value < |accounts|
  {
    if accounts == [] then None
    else if Matches(accounts[0], key) then Some(0)
    else match FindAccount(accounts[1..], key)
      case None => None
      case Some(i) => Some(i + 1)
  }

  /** `next` yields the first matching account, and nothing only when none matches. */
  lemma {:induction false} FindAccountSpec(accounts: seq<Account>, key: string)
    ensures var r := FindAccount(accounts, key);
      && (r.Some? ==>
            && Matches(accounts[r.value], key)
            && forall i :: 0 <= i < r.value ==> !Matches(accounts[i], key))
      && (r.None? <==> forall i :: 0 <= i < |accounts| ==> !Matches(accounts[i], key))
  {
    if accounts != [] && !Matches(accounts[0], key) {
      FindAccountSpec(accounts[1..], key);
      assert forall i :: 0 < i < |accounts| ==> accounts[i] == accounts[1..][i - 1];
    }
  }

  /** `next` finds an account exactly when `any` reports the email taken. */
  lemma FoundIffTaken(accounts: seq<Account>, email: string)
    ensures FindAccount(accounts, EmailKey(email)).Some? <==> EmailTaken(accounts, email)
  {
    FindAccountSpec(accounts, EmailKey(email));
  }

  /** No two accounts share an email, ignoring case. */
  predicate UniqueEmails(accounts: seq<Account>) {
    forall i, j :: 0 <= i < j < |accounts| ==> Lower(accounts[i].email) != Lower(accounts[j].email)
  }

  /** The first validation of `signup`: a blank name or email, or no password. */
  predicate MissingSignupField(req: SignupRequest) {
    Strip(req.name) == [] || Strip(req.email) == [] || req.password == []
  }

  /** The account `signup` stores. */
  function NewAccount(req: SignupRequest, info: ClientInfo, now: string, hash: Hasher): Account {
    Account(Strip(req.name), Strip(req.email), Some(Strip(req.phone)), Some(hash(req.password)),
            Some(now), info.ip, info.userAgent, now, info.ip, Some(1))
  }

  function Signup(doc: Document, req: SignupRequest, info: ClientInfo, now: string, hash: Hasher)
    : (r: Result<(Document, UserView)>)
    ensures MissingSignupField(req) ==> r == Err(FieldsRequired)
    ensures !MissingSignupField(req) && |req.password| < MinPasswordLength ==> r == Err(PasswordTooShort)
    ensures r.Ok? ==>
      && |r.value.0.registeredUsers| == |doc.registeredUsers| + 1
      && r.value.0.users == doc.users
      && r.value.0.queries == doc.queries
      && r.value.0.loginLogs == doc.loginLogs
  {
    if MissingSignupField(req) then Err(FieldsRequired)
    else if |req.password| < MinPasswordLength then Err(PasswordTooShort)
    else if FindAccount(doc.registeredUsers, EmailKey(req.email)).Some? then Err(EmailRegistered)
    else
      var user := NewAccount(req, info, now, hash);
      Ok((doc.(registeredUsers := doc.registeredUsers + [user]),
          UserView(user.name, user.email, user.phone.value, true)))
  }

  /** Signup is rejected exactly for a missing field, a short password or an
      email already registered in any casing; the phone is never checked. */
  lemma SignupRejects(doc: Document, req: SignupRequest, info: ClientInfo, now: string, hash: Hasher)
    ensures var r := Signup(doc, req, info, now, hash);
      && (r.Err? <==> (MissingSignupField(req) || |req.password| < MinPasswordLength
                       || EmailTaken(doc.registeredUsers, req.email)))
      && (r.Err? ==> r.error.status == 400)
      && ((!MissingSignupField(req) && |req.password| >= MinPasswordLength
           && EmailTaken(doc.registeredUsers, req.email)) ==> r == Err(EmailRegistered))
  {
    FoundIffTaken(doc.registeredUsers, req.email);
  }

  /** An accepted signup appends exactly one account: count 1, the password's
      hash, the stripped name and email (in their own case). */
  lemma SignupAppends(doc: Document, req: SignupRequest, info: ClientInfo, now: string, hash: Hasher)
    requires Signup(doc, req, info, now, hash).Ok?
    ensures var (d, view) := Signup(doc, req, info, now, hash).value;
      && d.registeredUsers[..|doc.registeredUsers|] == doc.registeredUsers
      && var a := d.registeredUsers[|doc.registeredUsers|];
      && a.loginCount == Some(1)
      && a.passwordHash == Some(hash(req.password))
      && a.email == Strip(req.email)
      && a.name == Strip(req.name)
      && a.phone == Some(Strip(req.phone))
      && a.registeredAt == Some(now) && a.lastLogin == now
      && a.signupIp == info.ip && a.lastLoginIp == info.ip
      && a.signupUserAgent == info.userAgent
      && view == UserView(a.name, a.email, Strip(req.phone), true)
  {
    var d := Signup(doc, req, info, now, hash).value.0;
    assert d.registeredUsers == doc.registeredUsers + [NewAccount(req, info, now, hash)];
    assert d.registeredUsers[..|doc.registeredUsers|] == doc.registeredUsers;
  }

  /** The first validation of `login`: a blank email or no password. */
  predicate MissingLoginField(req: LoginRequest) {
    Strip(req.email) == [] || req.password == []
  }

  /** The in-place update of the account that logged in. */
  function RecordLogin(a: Account, now: string, ip: string): Account {
    a.(lastLogin := now, lastLoginIp := ip, loginCount := Some(a.loginCount.GetOr(0) + 1))
  }

  function Login(doc: Document, req: LoginRequest, info: ClientInfo, now: string, hash: Hasher)
    : (r: Result<(Document, UserView)>)
    ensures MissingLoginField(req) ==> r == Err(CredentialsRequired)
    ensures r.Ok? ==>
      && |r.value.0.registeredUsers| == |doc.registeredUsers|
      && r.value.0.loginLogs == doc.loginLogs + [LoginEvent(req.email, Some(now), info.ip, info.userAgent)]
      && r.value.0.users == doc.users
      && r.value.0.queries == doc.queries
  {
    if MissingLoginField(req) then Err(CredentialsRequired)
    else match FindAccount(doc.registeredUsers, EmailKey(req.email))
      case None => Err(NoAccount)
      case Some(i) =>
        var user := doc.registeredUsers[i];
        if user.passwordHash != Some(hash(req.password)) then Err(WrongPassword)
        else
          var updated := RecordLogin(user, now, info.ip);
          Ok((doc.(registeredUsers := doc.registeredUsers[i := updated],
                   loginLogs := doc.loginLogs + [LoginEvent(req.email, Some(now), info.ip, info.userAgent)]),
              UserView(updated.name, updated.email, updated.phone.GetOr(""), true)))
  }

  /** An unknown email and a wrong password are rejected with distinct 401s;
      the first account matching the email decides. */
  lemma LoginRejects(doc: Document, req: LoginRequest, info: ClientInfo, now: string, hash: Hasher)
    requires !MissingLoginField(req)
    ensures var r := Login(doc, req, info, now, hash);
      && (!EmailTaken(doc.registeredUsers, req.email) ==> r == Err(NoAccount))
      && (FindAccount(doc.registeredUsers, EmailKey(req.email)).Some? ==>
            var i := FindAccount(doc.registeredUsers, EmailKey(req.email)).value;
            && (r.Err? <==> doc.registeredUsers[i].passwordHash != Some(hash(req.password)))
            && (r.Err? ==> r == Err(WrongPassword)))
  {
    FoundIffTaken(doc.registeredUsers, req.email);
  }

  /** An accepted login changes only the first matching account: its count
      rises by exactly one (a missing count counts as 0) and its last-login
      fields are set. */
  lemma LoginUpdatesAccount(doc: Document, req: LoginRequest, info: ClientInfo, now: string, hash: Hasher)
    requires Login(doc, req, info, now, hash).Ok?
    ensures var (d, view) := Login(doc, req, info, now, hash).value;
      var i := FindAccount(doc.registeredUsers, EmailKey(req.email)).value;
      var a := doc.registeredUsers[i];
      && FindAccount(doc.registeredUsers, EmailKey(req.email)).Some?
      && a.passwordHash == Some(hash(req.password))
      && (forall j :: 0 <= j < |doc.registeredUsers| && j != i ==> d.registeredUsers[j] == doc.registeredUsers[j])
      && d.registeredUsers[i].loginCount == Some(a.loginCount.GetOr(0) + 1)
      && d.registeredUsers[i].lastLogin == now
      && d.registeredUsers[i].lastLoginIp == info.ip
      && d.registeredUsers[i] == a.(lastLogin := now, lastLoginIp := info.ip, loginCount := d.registeredUsers[i].loginCount)
      && view == UserView(a.name, a.email, a.phone.GetOr(""), true)
  {
  }

  /** A stored (stripped) email matches every request email with the same key. */
  lemma StoredEmailMatches(email: string)
    ensures Lower(Strip(email)) == EmailKey(email)
  {
    LowerStripCommute(email);
  }

  /** Two emails with the same key are blank together. */
  lemma SameKeySameBlankness(e1: string, e2: string)
    requires EmailKey(e1) == EmailKey(e2)
    ensures Strip(e1) == [] <==> Strip(e2) == []
  {
    StripBlank(e1); StripBlank(e2);
    StripBlank(Lower(e1)); StripBlank(Lower(e2));
    LowerAllSpace(e1); LowerAllSpace(e2);
  }

  /** After a signup, signing up again with the same email in any casing (and
      any surrounding white space) is rejected. */
  lemma SecondSignupRejected(doc: Document, req: SignupRequest, info: ClientInfo, now: string, hash: Hasher,
                             req2: SignupRequest, info2: ClientInfo, now2: string)
    requires Signup(doc, req, info, now, hash).Ok?
    requires EmailKey(req2.email) == EmailKey(req.email)
    ensures Signup(Signup(doc, req, info, now, hash).value.0, req2, info2, now2, hash).Err?
  {
    var d := Signup(doc, req, info, now, hash).value.0;
    SignupAppends(doc, req, info, now, hash);
    StoredEmailMatches(req.email);
    assert Matches(d.registeredUsers[|doc.registeredUsers|], EmailKey(req2.email));
    SignupRejects(d, req2, info2, now2, hash);
  }

  /** An account appended behind no match is the first match. */
  lemma FindAppended(accounts: seq<Account>, a: Account, key: string)
    requires FindAccount(accounts, key).None? && Matches(a, key)
    ensures FindAccount(accounts + [a], key) == Some(|accounts|)
  {
    FindAccountSpec(accounts, key);
    FindAccountSpec(accounts + [a], key);
    assert (accounts + [a])[|accounts|] == a;
    assert forall i :: 0 <= i < |accounts| ==> (accounts + [a])[i] == accounts[i];
  }

  /** Login succeeds for the first account matching the email when its hash agrees. */
  lemma LoginSucceeds(doc: Document, req: LoginRequest, info: ClientInfo, now: string, hash: Hasher, i: nat)
    requires !MissingLoginField(req)
    requires FindAccount(doc.registeredUsers, EmailKey(req.email)) == Some(i)
    requires doc.registeredUsers[i].passwordHash == Some(hash(req.password))
    ensures var r := Login(doc, req, info, now, hash);
      r.Ok? && r.value.0.registeredUsers[i].loginCount == Some(doc.registeredUsers[i].loginCount.GetOr(0) + 1)
  {
  }

  /** After a signup, logging in with that password and the same email in any
      casing succeeds, and brings the new account's count to 2. */
  lemma LoginAfterSignup(doc: Document, req: SignupRequest, info: ClientInfo, now: string, hash: Hasher,
                         email: string, info2: ClientInfo, now2: string)
    requires Signup(doc, req, info, now, hash).Ok?
    requires EmailKey(email) == EmailKey(req.email)
    ensures var d := Signup(doc, req, info, now, hash).value.0;
      var r := Login(d, LoginRequest(email, req.password), info2, now2, hash);
      && r.Ok?
      && FindAccount(d.registeredUsers, EmailKey(email)) == Some(|doc.registeredUsers|)
      && r.value.0.registeredUsers[|doc.registeredUsers|].loginCount == Some(2)
  {
    var d := Signup(doc, req, info, now, hash).value.0;
    var a := NewAccount(req, info, now, hash);
    assert d.registeredUsers == doc.registeredUsers + [a];
    assert FindAccount(doc.registeredUsers, EmailKey(req.email)).None?;
    StoredEmailMatches(req.email);
    SameKeySameBlankness(email, req.email);
    FindAppended(doc.registeredUsers, a, EmailKey(email));
    LoginSucceeds(d, LoginRequest(email, req.password), info2, now2, hash, |doc.registeredUsers|);
  }

  /** Signup keeps emails unique, ignoring case. */
  lemma SignupKeepsEmailsUnique(doc: Document, req: SignupRequest, info: ClientInfo, now: string, hash: Hasher)
    requires UniqueEmails(doc.registeredUsers)
    requires Signup(doc, req, info, now, hash).Ok?
    ensures UniqueEmails(Signup(doc, req, info, now, hash).value.0.registeredUsers)
  {
    var s := Signup(doc, req, info, now, hash).value.0.registeredUsers;
    var n := |doc.registeredUsers|;
    assert s == doc.registeredUsers + [NewAccount(req, info, now, hash)];
    SignupRejects(doc, req, info, now, hash);
    StoredEmailMatches(req.email);
    forall i, j | 0 <= i < j < |s| ensures Lower(s[i].email) != Lower(s[j].email) {
      assert s[i] == doc.registeredUsers[i];
      if j == n {
        assert !Matches(doc.registeredUsers[i], EmailKey(req.email));
      } else {
        assert s[j] == doc.registeredUsers[j];
      }
    }
  }

  /** Login keeps emails unique, ignoring case: it never changes an email. */
  lemma LoginKeepsEmailsUnique(doc: Document, req: LoginRequest, info: ClientInfo, now: string, hash: Hasher)
    requires UniqueEmails(doc.registeredUsers)
    requires Login(doc, req, info, now, hash).Ok?
    ensures UniqueEmails(Login(doc, req, info, now, hash).value.0.registeredUsers)
  {
    var s := Login(doc, req, info, now, hash).value.0.registeredUsers;
    assert forall j :: 0 <= j < |s| ==> s[j].email == doc.registeredUsers[j].email;
  }
}
