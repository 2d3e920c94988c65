# FyreOne AI API — a verified model of its request handlers

FyreOne is a fire-safety question-answering service. Its HTTP API
(`fire-processor/api.py`) keeps all of its state in one JSON document with
four collections: `users` (question sessions by session id, each with a
question count and the IP first seen), `registered_users` (accounts),
`queries` (one event per question the generator answered) and `login_logs`
(one event per login). Each of `signup`, `login` and `ask_question` checks its
fields, loads the document, changes the loaded copy and saves it, or raises an
HTTP error before saving. The admin handlers only read the document.

This project models that state machine in Dafny:

- `Results`: `Option` and the `Result` of a handler, where an error carries
  the status code and message of the `HTTPException` it raises.
- `Text`: Python's `str.strip()` (the `isspace` set), `lower()`, `startswith`
  and lexicographic string comparison, with their laws.
- `Sorting`: `sorted(..., key=..., reverse=True)` as a stable descending
  insertion sort on a string key. It is proved sorted, a permutation and
  stable, and it commutes with a key-preserving map.
- `Store`: the document (`Document`), its empty default from `load_data`
  (`EmptyDocument`), and the loaded, mutable copy (`Data`) whose `Saved()`
  is what `save_data` writes.
- `Client`: `get_client_info`.
- `Accounts`: `signup` and `login` as transitions `Document -> Result<(Document, reply)>`.
- `Asking`: `ask_question`. This covers session creation and counting, the
  context and sources built from the search matches, and the unclamped
  `remaining` quota.
- `Admin`: `admin_auth`, `admin_leads`, `admin_stats` and `admin_queries`,
  and how the stats follow signups, logins and questions.
- `Handlers`: `signup`, `login` and `ask_question` written the way the
  service runs them. Each loads a `Data` object, updates its fields in place
  (appending an account, rewriting one account's login fields, creating and
  bumping a session, appending events) and returns what it saves. Each is
  proved to reply and save exactly what its transition function says, and
  to save nothing when it fails.

The parts of the service that lie outside the program are parameters:
- the request headers and client host;
- the current time (`now`, an ISO timestamp, and `today`, an ISO date);
- the password hash function;
- the environment's `ADMIN_PASSWORD`;
- the search matches;
- the answer generator, which either answers or fails.

## Model

| member | source | states |
|---|---|---|
| Client.GetClientInfo | fire-processor/api.py:100-104 | A non-empty `x-forwarded-for` gives the text before its first comma as the IP. That IP has no comma and is a prefix of the header, followed by a comma or the end. Otherwise the IP is `x-real-ip` if non-empty, else the client host, else `"unknown"`. The user agent defaults to `"unknown"` and the referer to `""`. |
| Store.Data.Load | fire-processor/api.py:80-87 | Loading a document gives an object that would save the same document. |
| Text.StripBlank | fire-processor/api.py:155 | `strip()` is empty exactly when every character is white space. |
| Text.StripStartSpec | fire-processor/api.py:155 | Stripping the front removes a run of white space, leaving a suffix that starts with a non-space character or is empty. |
| Text.StripEndSpec | fire-processor/api.py:155 | Stripping the back removes a run of white space, leaving a prefix that ends with a non-space character or is empty. |
| Text.LowerStripCommute | fire-processor/api.py:160-161 | `s.lower().strip() == s.strip().lower()`. So the key of a request email equals the lowered stored (stripped) email. |
| Text.LowerAllSpace | fire-processor/api.py:160 | Lowering keeps a string all white space exactly when it was. |
| Text.LexLeTotal | fire-processor/api.py:292 | Python string order is total. |
| Text.LexLeTransitive | fire-processor/api.py:292 | Python string order is transitive. |
| Text.LexLeAntisymmetric | fire-processor/api.py:292 | Python string order is antisymmetric. |
| Sorting.Insert | fire-processor/api.py:292 | Inserting into a descending sequence keeps it descending, adds exactly that element, and grows the length by one. |
| Sorting.SortDesc | fire-processor/api.py:292 | The result is descending by the key and a permutation of the input. |
| Sorting.SortStable | fire-processor/api.py:292 | Elements with equal keys keep their input order, as Python's stable sort promises. |
| Sorting.InsertStable | fire-processor/api.py:292 | One insertion keeps the equal-key elements in order, with the new one ahead of them, as it comes earlier in the input. |
| Sorting.SortMap | fire-processor/api.py:272-273 | Sorting and then mapping each element equals mapping and then sorting, for any map that keeps the key. |
| Accounts.FindAccountSpec | fire-processor/api.py:183 | `next(...)` finds the first account whose lowered email equals the key, or none when no account matches. |
| Accounts.FoundIffTaken | fire-processor/api.py:183 | The `any` test of signup and the `next` lookup of login agree. |
| Accounts.Signup | fire-processor/api.py:155-172 | Missing fields give "All fields required" and a short password gives its own error. An accepted signup adds exactly one account and leaves the other collections unchanged. |
| Accounts.SignupRejects | fire-processor/api.py:155-162 | Signup fails exactly when the stripped name or email is blank, the password is empty or shorter than 6, or the email is already registered in any casing. The phone is never checked. Every rejection is a 400, and a taken email gives "Email already registered. Please log in." |
| Accounts.SignupAppends | fire-processor/api.py:163-175 | The old accounts are kept. The new last account has count 1, the password's hash, and the stripped name, email (original case) and phone. Its signup time and last-login time are `now`, its signup and last-login IP are the client IP, and its signup user agent is the client's. The reply shows the name, email and phone with `verified`. |
| Accounts.Login | fire-processor/api.py:179-194 | Missing email or password gives "Email and password required". Success keeps the number of accounts, appends one login event, and leaves sessions and queries unchanged. |
| Accounts.LoginRejects | fire-processor/api.py:181-187 | An unknown email gives 401 "No account found. Please sign up first.". Otherwise the first matching account decides: the login fails exactly when its hash differs, with 401 "Incorrect password". |
| Accounts.LoginUpdatesAccount | fire-processor/api.py:188-197 | Success changes only the first matching account, which had the right hash. Its count rises by one (a missing count counts as 0), its last-login time and IP are set, and nothing else on it changes. The reply shows its name, email and phone (default `""`). |
| Accounts.LoginSucceeds | fire-processor/api.py:183-191 | The first matching account, when its hash is right, lets the login through and bumps that account's count. |
| Accounts.StoredEmailMatches | fire-processor/api.py:160-165 | A stored email, lowered, equals the key of the request email it was made from. |
| Accounts.SameKeySameBlankness | fire-processor/api.py:155-160 | Emails with the same key are blank together. |
| Accounts.SecondSignupRejected | fire-processor/api.py:160-172 | After a signup, a second signup with the same email in any casing or padding is rejected. |
| Accounts.FindAppended | fire-processor/api.py:183 | An account appended behind no match becomes the first match. |
| Accounts.LoginAfterSignup | fire-processor/api.py:163-191 | Right after signup, a login with the same password and the email in any casing succeeds on the new account and brings its count to 2. |
| Accounts.SignupKeepsEmailsUnique | fire-processor/api.py:161-172 | If no two accounts share a lowered email before a signup, none do after it. |
| Accounts.LoginKeepsEmailsUnique | fire-processor/api.py:189-191 | Login never changes an email, so it keeps emails unique. |
| Asking.Ask | fire-processor/api.py:201-255 | A blank question gives 400 "Question required". An accepted one leaves its session in `users` with count one above the prior count (0 when new) and reports `100 - count`. |
| Asking.AskCounts | fire-processor/api.py:205-255 | An accepted question sets its session to the prior count + 1, keeping the first-seen IP. A new session gets count 1 with the caller's IP and reports 99. `remaining` is `100 - prior - 1`, unclamped. Accounts and login logs are untouched. |
| Asking.AskWithoutMatches | fire-processor/api.py:211-214 | With no matches the question is still answered, with the fixed fallback text and no sources, and no query event is appended. |
| Asking.AskWithMatches | fire-processor/api.py:215-255 | With matches, a generator failure fails the question with that error, counting and saving nothing. A generator answer is returned with the capped sources, and exactly one query event (session, question, IP, `now`) is appended. |
| Asking.AskAccepted | fire-processor/api.py:201-249 | A non-blank question is accepted whenever the generator answers or there are no matches. |
| Asking.TextsNonEmpty | fire-processor/api.py:215 | Only non-empty texts go into the context. |
| Asking.TextsAppend | fire-processor/api.py:215 | The texts are taken in match order, skipping matches with no text. |
| Asking.JoinAppend | fire-processor/api.py:215 | Joining one more part adds the separator and the part. |
| Asking.JoinEmpty | fire-processor/api.py:215 | A join of non-empty parts is empty exactly when there are no parts. |
| Asking.ContextEmpty | fire-processor/api.py:215 | The context is empty exactly when no match carries a non-empty text. |
| Asking.ContextAppend | fire-processor/api.py:215 | The context grows in match order. Each non-empty text is put behind a blank line, or stands alone when it is the first. |
| Asking.SourcesSpec | fire-processor/api.py:216 | The sources are distinct, non-empty filenames of the matches, and every non-empty filename of a match is among them. |
| Asking.ReturnedSources | fire-processor/api.py:255 | A reply names exactly 5 sources when there are more than 5, and all of them otherwise. They are distinct, non-empty and from the matches. |
| Asking.RemainingAfter | fire-processor/api.py:250-255 | After `n` more accepted questions in one session, the count is `n` higher and the next question is still accepted, reporting `100 - (count + n + 1)`. |
| Asking.FreshSessionQuota | fire-processor/api.py:255 | From the empty document, the first question reports 99, the 100th reports 0, and the 101st reports -1 and is still answered. |
| Admin.AdminSecret | fire-processor/api.py:32 | With `ADMIN_PASSWORD` unset, the admin password accepted is exactly "changeme123"; when set, exactly its value. |
| Admin.AdminAuth | fire-processor/api.py:261-265 | Success exactly for the admin password, with 401 "Invalid password" otherwise. |
| Admin.StripHash | fire-processor/api.py:273 | A lead keeps every field of its account except the hash, so putting the hash back gives the account. |
| Admin.AdminLeads | fire-processor/api.py:267-274 | 401 "Unauthorized" unless the password is right. Otherwise every account appears exactly once, without its hash, newest `registered_at` first (a missing one sorts as `""`), with `total` equal to the number of accounts. |
| Admin.LeadsStable | fire-processor/api.py:272 | Accounts registered at the same instant are listed in their stored order. |
| Admin.CountToday | fire-processor/api.py:285 | A today count is at most the length of what it counts. |
| Admin.CountTodayAll | fire-processor/api.py:285 | A today count equals the total exactly when every entry is stamped today. |
| Admin.CountTodayIndices | fire-processor/api.py:285 | A today count is the number of positions whose entry is stamped today. |
| Admin.AdminStats | fire-processor/api.py:276-285 | 401 "Unauthorized" unless the password is right. Otherwise the totals are the collection sizes. Each today figure is the number of entries whose `registered_at` or `timestamp` (missing as `""`) starts with `today`, so it lies between 0 and its total. |
| Admin.CountTodayAppend | fire-processor/api.py:285 | One more entry adds one to a today count exactly when it is stamped today. |
| Admin.CountTodayUpdate | fire-processor/api.py:285 | Replacing an entry by one with the same stamp keeps a today count. |
| Admin.SignupCounted | fire-processor/api.py:285 | A signup adds one to `total_users`, and one to `users_today` when made today. No other figure changes. |
| Admin.LoginCounted | fire-processor/api.py:285 | A login adds one to `total_logins`, and one to `logins_today` when made today. The updated account keeps its signup date, so no other figure changes. |
| Admin.AskCounted | fire-processor/api.py:285 | An answered question with matches adds one to `total_queries`, and one to `queries_today` when asked today. The fallback reply changes no figure. |
| Admin.AdminQueries | fire-processor/api.py:287-293 | 401 "Unauthorized" unless the password is right. Otherwise `total` counts every query and at most 500 are returned, all of them when there are no more than 500. Those returned are queries of the log, newest first, and none left out is newer than any returned. Queries with equal timestamps keep their log order, and those cut off by the limit were logged after the ones kept. |
| Admin.QueriesStable | fire-processor/api.py:292-293 | For each timestamp, the first `n` of the sorted log are the earliest logged queries with that timestamp, in log order. |
| Sorting.WithKeyAppend | fire-processor/api.py:293 | The elements with one key in a concatenation are those of the first part followed by those of the second. |
| Sorting.WithKeyPrefix | fire-processor/api.py:293 | Cutting a sequence short keeps a prefix of the elements with any one key. |
| Admin.NewestShown | fire-processor/api.py:292-293 | A prefix of a newest-first sequence is newest-first, and nothing behind it is newer. |
| Handlers.Signup | fire-processor/api.py:153-175 | Mutating the loaded document in place replies and saves exactly what `Accounts.Signup` says. A rejection saves nothing. |
| Handlers.Login | fire-processor/api.py:177-197 | Mutating the loaded document in place replies and saves exactly what `Accounts.Login` says. A rejection saves nothing. |
| Handlers.Ask | fire-processor/api.py:199-255 | Mutating the loaded document in place (create the session, bump it, append the event) replies and saves exactly what `Asking.Ask` says. A rejection or generator failure saves nothing. |

## Left out

- FastAPI routing, the CORS middleware, the pydantic request models and the uvicorn start-up (api.py:18-26, 63-78, 295-299) are framework plumbing. Requests arrive as Dafny records.
- The file I/O of `load_data`/`save_data` and the exceptions they swallow (api.py:80-95) are not modelled. The document is a value handed to and returned by each handler. Only the empty default document of line 87 is kept, as `Store.EmptyDocument`.
- The document is typed, so it always has its four collections and every account has its `email`. The code's tolerance for a missing collection (`data.get(..., [])`, `if "x" not in data`) therefore never applies. Keys read with `.get` and a default are `Option`s.
- The HuggingFace embedding, the Pinecone search and the Groq chat call (api.py:106-151) are network calls. The search matches and the generator's answer-or-error are parameters. So are the 1500-character truncation of the embedded text, `top_k=5` and the float conversion of the embedding. Every failure of the search (no index, and the embedding service's 500s, which `search_knowledge` catches) gives an empty match list, so it takes the `matches == []` path: the fallback answer, with the session counted. Only the chat call's "AI service not configured" and "AI service unavailable" 500s reach the caller, as the generator's error.
- `hash_password` is SHA-256 from a library (api.py:97-98). It is an arbitrary function `string -> string`.
- `datetime.now()` is one timestamp `now` per request, and `today` is given. Signup reads the clock twice (`registered_at` and `last_login`), and so does login (the account's `last_login` and the login event's `timestamp`). The two readings may differ by microseconds in the service but are equal here.
- The prompt template text (api.py:217-248) is not modelled. The generator receives the context and the question it interpolates.
- Concurrent requests and the lost updates between load and save are out of scope: each handler runs alone.
- `print` logging (configuration warnings, errors, signups and logins) and the `/health` endpoint change nothing.
- Text.Lower: lowers ASCII letters only, because Python's full Unicode case mapping has no counterpart here. Emails differing only in non-ASCII case are therefore distinct in the model.
- Asking.Sources: Python's `set` has no defined order, so which five filenames survive `sources[:5]` is not determined by the code. The model keeps first-occurrence order. The Asking.ReturnedSources contract says only what holds for any order.
