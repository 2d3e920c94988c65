/** `ask_question`: session counting, context and source assembly, and the
    query log, as a function from the loaded document to the saved one. */
module Asking {
  import opened Results
  import opened Text
  import opened Store
  import opened Client

  datatype Question = Question(question: string, sessionId: string)

  /** One search match, reduced to `metadata.text` and `metadata.filename`
      (a match without metadata has neither). */
  datatype Match = Match(text: Option<string>, filename: Option<string>)

  datatype AskReply = AskReply(answer: string, sources: seq<string>, remaining: int)

  /** `chat_with_groq` on the prompt the fixed template builds from a context
      and a question: the generated answer, or the exception it raises. */
  type Generator = (string, string) -> Result<string>

  /** The nominal number of questions per session. */
  const QuotaLimit := 100
  /** How many source filenames a reply carries at most. */
  const MaxSources := 5
  /** What separates two snippets in the context: a blank line. */
  const Separator := "\n\n"

  const QuestionRequired := HttpError(400, "Question required")

  const FallbackAnswer := "I couldn't find specific information about that in the fire safety knowledge base. Try asking about AS1851 maintenance, NCC requirements, sprinkler systems, fire doors, EWIS, or other Australian fire safety compliance topics."

  /** `m.get("metadata", {}).get("text", "")`. */
  function MatchText(m: Match): string {
    m.text.GetOr("")
  }

  /** `m.get("metadata", {}).get("filename", "")`. */
  function MatchFilename(m: Match): string {
    m.filename.GetOr("")
  }

  /** The snippets of the context: the non-empty texts, in match order. */
  function Texts(ms: seq<Match>): seq<string> {
    if ms == [] then []
    else (if MatchText(ms[0]) != [] then [MatchText(ms[0])] else []) + Texts(ms[1..])
  }

  /** `sep.join(parts)`. */
  function Join(parts: seq<string>, sep: string): string {
    if parts == [] then []
    else if |parts| == 1 then parts[0]
    else parts[0] + sep + Join(parts[1..], sep)
  }

  /** The knowledge block of the prompt. */
  function Context(ms: seq<Match>): string {
    Join(Texts(ms), Separator)
  }

  /** `list(set(...))` of the non-empty filenames. Python leaves the order of a
      set unspecified; this takes them in order of first appearance. */
  function Sources(ms: seq<Match>): (r: seq<string>)
    ensures |r| <= |ms|
  {
    if ms == [] then []
    else
      var rest := Sources(ms[..|ms| - 1]);
      var f := MatchFilename(ms[|ms| - 1]);
      if f == [] || f in rest then rest else rest + [f]
  }

  /** `sources[:5]`. */
  function Returned(sources: seq<string>): seq<string> {
    if |sources| <= MaxSources then sources else sources[..MaxSources]
  }

  /** The session's count before this question: 0 for a session not yet seen. */
  function PriorCount(doc: Document, sid: string): int {
    if sid in doc.users then doc.users[sid].count else 0
  }

  /** The session as this question finds it, created on first use. */
  function SessionFor(doc: Document, sid: string, info: ClientInfo): Session {
    if sid in doc.users then doc.users[sid] else Session(0, info.ip)
  }

  function Ask(doc: Document, q: Question, info: ClientInfo, matches: seq<Match>, generate: Generator, now: string)
    : (r: Result<(Document, AskReply)>)
    ensures AllSpace(q.question) ==> r == Err(QuestionRequired)
    ensures r.Ok? ==>
      var (d, reply) := r.value;
      && q.sessionId in d.users
      && d.users[q.sessionId].count == PriorCount(doc, q.sessionId) + 1
      && reply.remaining == QuotaLimit - d.users[q.sessionId].count
  {
    StripBlank(q.question);
    if Strip(q.question) == [] then Err(QuestionRequired)
    else
      var session := SessionFor(doc, q.sessionId, info);
      var users := doc.users[q.sessionId := session.(count := session.count + 1)];
      var remaining := QuotaLimit - (session.count + 1);
      if matches == [] then
        Ok((doc.(users := users), AskReply(FallbackAnswer, [], remaining)))
      else
        match generate(Context(matches), q.question)
        case Err(e) => Err(e)
        case Ok(answer) =>
          var event := QueryEvent(q.sessionId, q.question, info.ip, Some(now));
          Ok((doc.(users := users, queries := doc.queries + [event]),
              AskReply(answer, Returned(Sources(matches)), remaining)))
  }

  // ---------------------------------------------------------------- context

  lemma {:induction false} TextsAppend(ms: seq<Match>, m: Match)
    ensures Texts(ms + [m]) == Texts(ms) + (if MatchText(m) != [] then [MatchText(m)] else [])
  {
    if ms != [] {
      assert (ms + [m])[1..] == ms[1..] + [m];
      TextsAppend(ms[1..], m);
    } else {
      assert ([] + [m])[1..] == [];
    }
  }

  lemma {:induction false} TextsNonEmpty(ms: seq<Match>)
    ensures forall i :: 0 <= i < |Texts(ms)| ==> Texts(ms)[i] != []
    ensures Texts(ms) == [] <==> forall j :: 0 <= j < |ms| ==> MatchText(ms[j]) == []
  {
    if ms != [] {
      TextsNonEmpty(ms[1..]);
      assert forall j :: 0 < j < |ms| ==> ms[j] == ms[1..][j - 1];
    }
  }

  lemma {:induction false} JoinAppend(parts: seq<string>, x: string, sep: string)
    requires parts != []
    ensures Join(parts + [x], sep) == Join(parts, sep) + sep + x
  {
    if |parts| > 1 {
      assert (parts + [x])[1..] == parts[1..] + [x];
      JoinAppend(parts[1..], x, sep);
    }
  }

  lemma {:induction false} JoinEmpty(parts: seq<string>, sep: string)
    requires forall i :: 0 <= i < |parts| ==> parts[i] != []
    ensures Join(parts, sep) == [] <==> parts == []
  {
    if |parts| > 1 {
      JoinEmpty(parts[1..], sep);
    }
  }

  /** The context is empty exactly when no match carries a non-empty text. */
  lemma ContextEmpty(ms: seq<Match>)
    ensures Context(ms) == [] <==> forall j :: 0 <= j < |ms| ==> MatchText(ms[j]) == []
  {
    TextsNonEmpty(ms);
    JoinEmpty(Texts(ms), Separator);
  }

  /** The context grows in match order: a further match adds its text behind a
      blank line, or alone when there is nothing yet; an empty text adds nothing. */
  lemma ContextAppend(ms: seq<Match>, m: Match)
    ensures Context(ms + [m]) ==
      if MatchText(m) == [] then Context(ms)
      else if Context(ms) == [] then MatchText(m)
      else Context(ms) + Separator + MatchText(m)
  {
    TextsAppend(ms, m);
    TextsNonEmpty(ms);
    JoinEmpty(Texts(ms), Separator);
    if MatchText(m) != [] {
      if Texts(ms) != [] {
        JoinAppend(Texts(ms), MatchText(m), Separator);
      } else {
        assert Texts(ms + [m]) == [MatchText(m)];
      }
    } else {
      assert Texts(ms + [m]) == Texts(ms);
    }
  }

  // ---------------------------------------------------------------- sources

  /** The sources are distinct non-empty filenames of the matches, and every
      non-empty filename of a match is among them. */
  lemma {:induction false} SourcesSpec(ms: seq<Match>)
    ensures var r := Sources(ms);
      && (forall i :: 0 <= i < |r| ==> r[i] != [])
      && (forall i, j :: 0 <= i < j < |r| ==> r[i] != r[j])
      && (forall i :: 0 <= i < |r| ==> exists j :: 0 <= j < |ms| && MatchFilename(ms[j]) == r[i])
      && (forall j :: 0 <= j < |ms| && MatchFilename(ms[j]) != [] ==> MatchFilename(ms[j]) in r)
  {
    if ms != [] {
      var init := ms[..|ms| - 1];
      SourcesSpec(init);
      assert forall j :: 0 <= j < |init| ==> init[j] == ms[j];
    }
  }

  /** A reply names at most five sources, all distinct, non-empty and from the
      matches; when there are at most five, it names all of them. */
  lemma ReturnedSources(ms: seq<Match>)
    ensures var r := Returned(Sources(ms));
      && |r| == (if |Sources(ms)| <= MaxSources then |Sources(ms)| else MaxSources)
      && (forall i :: 0 <= i < |r| ==> r[i] != [])
      && (forall i, j :: 0 <= i < j < |r| ==> r[i] != r[j])
      && (forall i :: 0 <= i < |r| ==> exists j :: 0 <= j < |ms| && MatchFilename(ms[j]) == r[i])
      && (|Sources(ms)| <= MaxSources ==>
            forall j :: 0 <= j < |ms| && MatchFilename(ms[j]) != [] ==> MatchFilename(ms[j]) in r)
  {
    SourcesSpec(ms);
    var s := Sources(ms);
    var r := Returned(s);
    assert forall i :: 0 <= i < |r| ==> r[i] == s[i];
  }

  // ---------------------------------------------------------------- ask

  /** Every accepted question adds exactly one to its session (created with
      count 0 and the caller's IP on first use) and reports `100 - count`,
      unclamped; accounts and logins are untouched. */
  lemma AskCounts(doc: Document, q: Question, info: ClientInfo, matches: seq<Match>, generate: Generator, now: string)
    requires Ask(doc, q, info, matches, generate, now).Ok?
    ensures var (d, reply) := Ask(doc, q, info, matches, generate, now).value;
      var before := SessionFor(doc, q.sessionId, info);
      && d.users == doc.users[q.sessionId := Session(before.count + 1, before.ip)]
      && (q.sessionId !in doc.users ==> d.users[q.sessionId] == Session(1, info.ip) && reply.remaining == 99)
      && reply.remaining == QuotaLimit - PriorCount(doc, q.sessionId) - 1
      && d.registeredUsers == doc.registeredUsers
      && d.loginLogs == doc.loginLogs
  {
  }

  /** With no matches the question is still accepted: the fallback answer, no
      sources, the session counted, and no query event logged. */
  lemma AskWithoutMatches(doc: Document, q: Question, info: ClientInfo, generate: Generator, now: string)
    requires !AllSpace(q.question)
    ensures var r := Ask(doc, q, info, [], generate, now);
      && r.Ok?
      && r.value.1.answer == FallbackAnswer
      && r.value.1.sources == []
      && r.value.0.queries == doc.queries
  {
    StripBlank(q.question);
  }

  /** With matches, a failing generator fails the question (so nothing is
      counted or saved); otherwise its answer is returned with the sources
      and exactly one query event is appended. */
  lemma AskWithMatches(doc: Document, q: Question, info: ClientInfo, matches: seq<Match>, generate: Generator, now: string)
    requires !AllSpace(q.question) && matches != []
    ensures var r := Ask(doc, q, info, matches, generate, now);
      var g := generate(Context(matches), q.question);
      && (g.Err? ==> r == Err(g.error))
      && (g.Ok? ==>
            && r.Ok?
            && r.value.1.answer == g.value
            && r.value.1.sources == Returned(Sources(matches))
            && r.value.0.queries == doc.queries + [QueryEvent(q.sessionId, q.question, info.ip, Some(now))])
  {
    StripBlank(q.question);
  }

  /** `n` questions in a row from one session, each accepted. */
  ghost function AskTimes(doc: Document, q: Question, info: ClientInfo, matches: seq<Match>,
                          generate: Generator, now: string, n: nat): Document
    requires !AllSpace(q.question)
    requires matches == [] || generate(Context(matches), q.question).Ok?
  {
    if n == 0 then doc
    else
      var d := AskTimes(doc, q, info, matches, generate, now, n - 1);
      AskAccepted(d, q, info, matches, generate, now);
      Ask(d, q, info, matches, generate, now).value.0
  }

  lemma AskAccepted(doc: Document, q: Question, info: ClientInfo, matches: seq<Match>, generate: Generator, now: string)
    requires !AllSpace(q.question)
    requires matches == [] || generate(Context(matches), q.question).Ok?
    ensures Ask(doc, q, info, matches, generate, now).Ok?
  {
    StripBlank(q.question);
  }

  /** The quota is advisory: after `n` accepted questions the next one is
      accepted too and reports `100 - (count + n + 1)`, however negative. */
  lemma {:induction false} RemainingAfter(doc: Document, q: Question, info: ClientInfo, matches: seq<Match>,
                                          generate: Generator, now: string, n: nat)
    requires !AllSpace(q.question)
    requires matches == [] || generate(Context(matches), q.question).Ok?
    ensures var d := AskTimes(doc, q, info, matches, generate, now, n);
      && PriorCount(d, q.sessionId) == PriorCount(doc, q.sessionId) + n
      && Ask(d, q, info, matches, generate, now).Ok?
      && Ask(d, q, info, matches, generate, now).value.1.remaining == QuotaLimit - PriorCount(doc, q.sessionId) - n - 1
  {
    if n > 0 {
      RemainingAfter(doc, q, info, matches, generate, now, n - 1);
    }
    AskAccepted(AskTimes(doc, q, info, matches, generate, now, n), q, info, matches, generate, now);
  }

  /** From the empty document, the first question reports 99, the hundredth 0
      and the hundred-and-first -1, and is still answered. */
  lemma FreshSessionQuota(q: Question, info: ClientInfo, matches: seq<Match>, generate: Generator, now: string)
    requires !AllSpace(q.question)
    requires matches == [] || generate(Context(matches), q.question).Ok?
    ensures var r := Ask(EmptyDocument, q, info, matches, generate, now);
      r.Ok? && r.value.1.remaining == 99
    ensures var r := Ask(AskTimes(EmptyDocument, q, info, matches, generate, now, 99), q, info, matches, generate, now);
      r.Ok? && r.value.1.remaining == 0
    ensures var r := Ask(AskTimes(EmptyDocument, q, info, matches, generate, now, 100), q, info, matches, generate, now);
      r.Ok? && r.value.1.remaining == -1
  {
    RemainingAfter(EmptyDocument, q, info, matches, generate, now, 0);
    RemainingAfter(EmptyDocument, q, info, matches, generate, now, 99);
    RemainingAfter(EmptyDocument, q, info, matches, generate, now, 100);
  }
}
