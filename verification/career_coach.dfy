/** The career coach: chat sessions listed newest first, the active
    session's title and conversation, deletion, creation of a session with
    a model-suggested title, and the send path. Model replies, stream chunks
    and clock readings are parameters. */
module CareerCoach {
  import opened Options
  import opened Strings
  import opened Records
  import Seqs

  const InitialText: string := "Hello! I am your AI Career Coach. How can I assist you today?"
  const InitialMessage: Message := Message(ModelRole, InitialText)
  const IdleTitle: string := "Always here to help"
  const DefaultTitle: string := "New Chat"
  const ErrorText: string := "I'm having trouble connecting. Please try again."

  /** The component state: the listed sessions, the active session id, the
      input box and the loading flag. */
  datatype Coach = Coach(sessions: seq<ChatSession>, activeId: Option<string>, input: string, loading: bool)

  /** `!activeId`: no id, or the empty string. */
  predicate NoActive(activeId: Option<string>) {
    activeId.None? || activeId.value == ""
  }

  /** Position of the first session with `id` (`Array.prototype.find`). */
  function FindIndex(sessions: seq<ChatSession>, id: string): (r: Option<nat>)
    ensures r.None? <==> forall i :: 0 <= i < |sessions| ==> sessions[i].id != id
    ensures r.Some? ==> r.value < |sessions| && sessions[r.value].id == id
    ensures r.Some? ==> forall i :: 0 <= i < r.value ==> sessions[i].id != id
  {
    if |sessions| == 0 then None
    else if sessions[0].id == id then Some(0)
    else
      match FindIndex(sessions[1..], id)
      case None => None
      case Some(k) => Some(k + 1)
  }

  /** The active session, when the id is set and some session carries it. */
  function ActiveSession(c: Coach): (r: Option<ChatSession>)
    ensures NoActive(c.activeId) ==> r.None?
    ensures !NoActive(c.activeId) ==>
      (r.None? <==> forall i :: 0 <= i < |c.sessions| ==> c.sessions[i].id != c.activeId.value)
    ensures r.Some? ==> r.value in c.sessions && r.value.id == c.activeId.value
  {
    if NoActive(c.activeId) then None
    else
      match FindIndex(c.sessions, c.activeId.value)
      case None => None
      case Some(k) => Some(c.sessions[k])
  }

  /** `activeSessionTitle`. */
  function ActiveSessionTitle(c: Coach): (r: string)
    ensures ActiveSession(c).None? ==> r == IdleTitle
    ensures ActiveSession(c).Some? ==> r == "Reviewing: " + ActiveSession(c).value.title
  {
    match ActiveSession(c)
    case None => IdleTitle
    case Some(s) => "Reviewing: " + s.title
  }

  /** `activeConversation`. */
  function ActiveConversation(c: Coach): (r: seq<Message>)
    ensures NoActive(c.activeId) ==> r == [InitialMessage]
    ensures !NoActive(c.activeId) && (forall i :: 0 <= i < |c.sessions| ==> c.sessions[i].id != c.activeId.value)
      ==> r == [InitialMessage]
    ensures ActiveSession(c).Some? ==> r == ActiveSession(c).value.messages
  {
    match ActiveSession(c)
    case None => [InitialMessage]
    case Some(s) => s.messages
  }

  // Newest first

  /** Ordered by creation time, newest first. */
  predicate NewestFirst(s: seq<ChatSession>) {
    forall i, j :: 0 <= i < j < |s| ==> s[i].createdAt >= s[j].createdAt
  }

  /** Place `x` before the first session that is not newer than it. */
  function Insert(x: ChatSession, s: seq<ChatSession>): (r: seq<ChatSession>)
    requires NewestFirst(s)
    ensures NewestFirst(r)
    ensures multiset(r) == multiset(s) + multiset{x}
    ensures |r| == |s| + 1 && (r[0] == x || (|s| > 0 && r[0] == s[0]))
  {
    if |s| == 0 || s[0].createdAt <= x.createdAt then
      [x] + s
    else
      var rest := Insert(x, s[1..]);
      assert s == [s[0]] + s[1..];
      [s[0]] + rest
  }

  /** The sort of the effect that loads the user's sessions:
      `sort((a, b) => b.createdAt - a.createdAt)`. */
  function SortNewestFirst(s: seq<ChatSession>): (r: seq<ChatSession>)
    ensures NewestFirst(r)
    ensures multiset(r) == multiset(s)
    ensures |r| == |s|
  {
    if |s| == 0 then []
    else
      assert s == [s[0]] + s[1..];
      Insert(s[0], SortNewestFirst(s[1..]))
  }

  /** A list already newest first is left as it is. */
  lemma {:induction false} SortSorted(s: seq<ChatSession>)
    requires NewestFirst(s)
    ensures SortNewestFirst(s) == s
  {
    if |s| > 0 {
      SortSorted(s[1..]);
      assert SortNewestFirst(s) == Insert(s[0], s[1..]);
    }
  }

  /** The effect: when a user is signed in, their sessions sorted newest
      first replace the listed ones; otherwise the list stays. */
  function LoadSessions(user: Option<Profile>, listed: seq<ChatSession>): (r: seq<ChatSession>)
    ensures user.None? ==> r == listed
    ensures user.Some? ==> NewestFirst(r) && multiset(r) == multiset(user.value.chatSessions)
  {
    if user.Some? then SortNewestFirst(user.value.chatSessions) else listed
  }

  // Deleting and creating sessions

  /** `deleteSession(id)`: the sessions whose id differs, in order; an active
      session with that id is closed. */
  function DeleteSession(c: Coach, id: string): (r: Coach)
    ensures forall i :: 0 <= i < |r.sessions| ==> r.sessions[i].id != id && r.sessions[i] in c.sessions
    ensures forall i :: 0 <= i < |c.sessions| && c.sessions[i].id != id ==> c.sessions[i] in r.sessions
    ensures Seqs.IsSubseq(r.sessions, c.sessions)
    ensures forall s :: multiset(r.sessions)[s] == (if s.id != id then multiset(c.sessions)[s] else 0)
    ensures c.activeId == Some(id) ==> r.activeId.None?
    ensures c.activeId != Some(id) ==> r.activeId == c.activeId
    ensures r.input == c.input && r.loading == c.loading
  {
    var keep := (s: ChatSession) => s.id != id;
    Seqs.FilterSubseq(c.sessions, keep);
    Seqs.FilterCounts(c.sessions, keep);
    var sessions := Seqs.Filter(c.sessions, keep);
    c.(sessions := sessions, activeId := if c.activeId == Some(id) then None else c.activeId)
  }

  /** Deleting keeps the newest-first order. */
  lemma DeleteKeepsOrder(c: Coach, id: string)
    requires NewestFirst(c.sessions)
    ensures NewestFirst(DeleteSession(c, id).sessions)
  {
    SubseqNewestFirst(DeleteSession(c, id).sessions, c.sessions);
  }

  lemma {:induction false} SubseqNewestFirst(a: seq<ChatSession>, b: seq<ChatSession>)
    requires Seqs.IsSubseq(a, b) && NewestFirst(b)
    ensures NewestFirst(a)
    decreases |b|
  {
    if |a| > 0 && |b| > 0 {
      if a[0] == b[0] && Seqs.IsSubseq(a[1..], b[1..]) {
        SubseqNewestFirst(a[1..], b[1..]);
        SubseqElements(a[1..], b[1..]);
        forall j | 0 < j < |a| ensures a[0].createdAt >= a[j].createdAt {
          assert a[j] == a[1..][j - 1];
        }
      } else {
        SubseqNewestFirst(a, b[1..]);
      }
    }
  }

  /** Every element of a subsequence is an element of the whole. */
  lemma {:induction false} SubseqElements(a: seq<ChatSession>, b: seq<ChatSession>)
    requires Seqs.IsSubseq(a, b)
    ensures forall i :: 0 <= i < |a| ==> exists j :: 0 <= j < |b| && a[i] == b[j]
    decreases |b|
  {
    if |a| > 0 && |b| > 0 {
      if a[0] == b[0] && Seqs.IsSubseq(a[1..], b[1..]) {
        SubseqElements(a[1..], b[1..]);
        forall i | 0 <= i < |a| ensures exists j :: 0 <= j < |b| && a[i] == b[j] {
          if i == 0 {
            assert a[0] == b[0];
          } else {
            assert a[i] == a[1..][i - 1];
            var j :| 0 <= j < |b[1..]| && a[1..][i - 1] == b[1..][j];
            assert a[i] == b[j + 1];
          }
        }
      } else {
        SubseqElements(a, b[1..]);
        forall i | 0 <= i < |a| ensures exists j :: 0 <= j < |b| && a[i] == b[j] {
          var j :| 0 <= j < |b[1..]| && a[i] == b[1..][j];
          assert a[i] == b[j + 1];
        }
      }
    }
  }

  /** The title of a new session, as the source computes it: the model's
      title with every `"` removed and then trimmed, unless the model gave
      nothing or only whitespace. */
  function TitleAsWritten(aiTitle: Option<string>): (r: string)
    ensures aiTitle.None? || IsBlank(aiTitle.value) ==> r == DefaultTitle
    ensures aiTitle.Some? && !IsBlank(aiTitle.value) ==> r == Trim(RemoveChar(aiTitle.value, '"'))
    ensures '"' !in r && IsTrimmed(r)
  {
    if aiTitle.Some? && !IsBlank(aiTitle.value) then StripQuotes(aiTitle.value) else DefaultTitle
  }

  /** `title.replace(/"/g, '').trim()`. */
  function StripQuotes(t: string): (r: string)
    ensures r == Trim(RemoveChar(t, '"'))
    ensures '"' !in r && IsTrimmed(r)
    ensures forall i :: 0 <= i < |t| && t[i] != '"' && !IsWhitespace(t[i]) ==> r != ""
  {
    var u := RemoveChar(t, '"');
    TrimKeepsAbsent(u, '"');
    Trim(u)
  }

  /** A non-blank model title without quotes is only trimmed. */
  lemma PlainTitle(t: string)
    requires '"' !in t && !IsBlank(t)
    ensures TitleAsWritten(Some(t)) == Trim(t) && TitleAsWritten(Some(t)) != ""
  {
    RemoveCharAbsent(t, '"');
  }

  /** A model title made only of quotes passes the blank check and leaves an
      empty title: the new session is saved untitled and the header reads
      "Reviewing: " with nothing after it. */
  lemma QuotesOnlyTitle(c: Coach, first: Message, idNow: nat, createdNow: int)
    ensures TitleAsWritten(Some("\"\"")) == ""
    ensures NewSession(c, first, Some("\"\""), idNow, createdNow).sessions[0].title == ""
    ensures ActiveSessionTitle(NewSession(c, first, Some("\"\""), idNow, createdNow)) == "Reviewing: "
  {
    var t := "\"\"";
    assert !IsWhitespace(t[0]);
    assert RemoveChar(t, '"') == "";
    assert "Reviewing: " + "" == "Reviewing: ";
  }

  /** The title a new session was evidently meant to get: the stripped model
      title when that is non-empty, else `"New Chat"`, so never empty. */
  function SessionTitle(aiTitle: Option<string>): (r: string)
    ensures r != "" && '"' !in r && IsTrimmed(r)
    ensures TitleAsWritten(aiTitle) != "" ==> r == TitleAsWritten(aiTitle)
    ensures TitleAsWritten(aiTitle) == "" ==> r == DefaultTitle
  {
    var t := TitleAsWritten(aiTitle);
    if t != "" then t else DefaultTitle
  }

  /** `createNewSession`: a session opened by the user's first message, put
      first and made active; the two `Date.now()` readings are parameters. */
  function NewSession(c: Coach, first: Message, aiTitle: Option<string>, idNow: nat, createdNow: int): (r: Coach)
    ensures |r.sessions| == |c.sessions| + 1 && r.sessions[1..] == c.sessions
    ensures r.sessions[0].messages == [InitialMessage, first]
    ensures r.sessions[0].id == NatToString(idNow) && r.sessions[0].createdAt == createdNow
    ensures r.sessions[0].title == TitleAsWritten(aiTitle)
    ensures r.activeId == Some(r.sessions[0].id) && !NoActive(r.activeId)
    ensures r.input == c.input && r.loading == c.loading
  {
    var s := ChatSession(NatToString(idNow), TitleAsWritten(aiTitle), createdNow, [InitialMessage, first]);
    c.(sessions := [s] + c.sessions, activeId := Some(s.id))
  }

  /** A new session is what the page then shows. */
  lemma NewSessionIsActive(c: Coach, first: Message, aiTitle: Option<string>, idNow: nat, createdNow: int)
    ensures
      var r := NewSession(c, first, aiTitle, idNow, createdNow);
      ActiveConversation(r) == [InitialMessage, first]
      && ActiveSessionTitle(r) == "Reviewing: " + TitleAsWritten(aiTitle)
  {
  }

  /** The loading effect re-sorts the list `createNewSession` writes back; the
      new session stays first when the clock reading is not older than any
      listed session. */
  lemma NewSessionStaysFirst(c: Coach, first: Message, aiTitle: Option<string>, idNow: nat, createdNow: int)
    requires NewestFirst(c.sessions)
    requires forall i :: 0 <= i < |c.sessions| ==> c.sessions[i].createdAt <= createdNow
    ensures
      var r := NewSession(c, first, aiTitle, idNow, createdNow);
      NewestFirst(r.sessions) && SortNewestFirst(r.sessions) == r.sessions
  {
    var r := NewSession(c, first, aiTitle, idNow, createdNow);
    assert r.sessions == [r.sessions[0]] + c.sessions;
    NewestCons(r.sessions[0], c.sessions);
    SortSorted(r.sessions);
  }

  lemma NewestCons(x: ChatSession, s: seq<ChatSession>)
    requires NewestFirst(s)
    requires forall i :: 0 <= i < |s| ==> s[i].createdAt <= x.createdAt
    ensures NewestFirst([x] + s)
  {
    var t := [x] + s;
    forall i, j | 0 <= i < j < |t| ensures t[i].createdAt >= t[j].createdAt {
      assert t[j] == s[j - 1];
      if i > 0 {
        assert t[i] == s[i - 1];
      }
    }
  }

  // Sending a message

  /** The model's answer: the streamed chunks, or a failed request. */
  datatype Reply = Streamed(chunks: seq<string>) | Failed

  /** The text the streamed chunks add up to. */
  function Concat(chunks: seq<string>): string {
    if |chunks| == 0 then "" else chunks[0] + Concat(chunks[1..])
  }

  /** The message the model's answer ends as. */
  function ReplyMessage(reply: Reply): Message {
    match reply
    case Streamed(chunks) => Message(ModelRole, Concat(chunks))
    case Failed => Message(ModelRole, ErrorText)
  }

  /** `sendMessage` runs only for a non-blank input while no request is pending. */
  predicate CanSend(c: Coach) {
    !IsBlank(c.input) && !c.loading
  }

  /** Every listed session with `s.id` replaced by `s`. */
  function ReplaceById(sessions: seq<ChatSession>, s: ChatSession): (r: seq<ChatSession>)
    ensures |r| == |sessions|
    ensures forall i :: 0 <= i < |r| ==> r[i] == (if sessions[i].id == s.id then s else sessions[i])
  {
    if |sessions| == 0 then []
    else [if sessions[0].id == s.id then s else sessions[0]] + ReplaceById(sessions[1..], s)
  }

  /** The result of `sendMessage`: the page afterwards and the history sent
      to the model, if a request was made. */
  datatype Sent = Sent(coach: Coach, history: Option<seq<Message>>)

  /** `sendMessage`. The user's message opens a new session when none is
      active, or is appended to the active one; the history sent is the
      session's messages without that last one; the model's message is then
      appended and the session written back under its id. When the active id
      designates no session, only the input is cleared. */
  function SendMessage(c: Coach, reply: Reply, aiTitle: Option<string>, idNow: nat, createdNow: int): (r: Sent)
    ensures !CanSend(c) ==> r == Sent(c, None)
    ensures CanSend(c) ==> r.coach.input == "" && !r.coach.loading
    ensures CanSend(c) && !NoActive(c.activeId) && FindIndex(c.sessions, c.activeId.value).None? ==>
      r == Sent(c.(input := ""), None)
  {
    if !CanSend(c) then Sent(c, None)
    else
      var user := Message(UserRole, c.input);
      var c0 := c.(input := "");
      if NoActive(c.activeId) then
        var c1 := NewSession(c0, user, aiTitle, idNow, createdNow);
        Answer(c1, c1.sessions[0], reply)
      else
        match FindIndex(c.sessions, c.activeId.value)
        case None => Sent(c0, None)
        case Some(k) =>
          var s := c.sessions[k];
          var s1 := s.(messages := s.messages + [user]);
          Answer(c0.(sessions := ReplaceById(c.sessions, s1)), s1, reply)
  }

  /** The part of `sendMessage` after the user's message is in `s`. */
  function Answer(c: Coach, s: ChatSession, reply: Reply): (r: Sent)
    requires |s.messages| >= 1
    ensures r.history == Some(s.messages[..|s.messages| - 1])
    ensures !r.coach.loading && r.coach.input == c.input && r.coach.activeId == c.activeId
    ensures r.coach.sessions == ReplaceById(c.sessions, s.(messages := s.messages + [ReplyMessage(reply)]))
  {
    var done := s.(messages := s.messages + [ReplyMessage(reply)]);
    Sent(c.(sessions := ReplaceById(c.sessions, done), loading := false), Some(s.messages[..|s.messages| - 1]))
  }

  /** Sending in an existing session: the request carries the messages
      before the user's one, and afterwards the session's messages are the
      old ones followed by the user's message and the model's reply. Other
      sessions are untouched. */
  lemma SendInSession(c: Coach, reply: Reply, aiTitle: Option<string>, idNow: nat, createdNow: int)
    requires CanSend(c) && !NoActive(c.activeId)
    requires FindIndex(c.sessions, c.activeId.value).Some?
    ensures
      var k := FindIndex(c.sessions, c.activeId.value).value;
      var r := SendMessage(c, reply, aiTitle, idNow, createdNow);
      && r.history == Some(c.sessions[k].messages)
      && r.coach.sessions[k].messages == c.sessions[k].messages + [Message(UserRole, c.input), ReplyMessage(reply)]
      && (forall i :: 0 <= i < |c.sessions| && c.sessions[i].id != c.activeId.value ==> r.coach.sessions[i] == c.sessions[i])
      && r.coach.activeId == c.activeId
  {
    var k := FindIndex(c.sessions, c.activeId.value).value;
    var s := c.sessions[k];
    var user := Message(UserRole, c.input);
    var s1 := s.(messages := s.messages + [user]);
    assert s1.messages[..|s1.messages| - 1] == s.messages;
    assert s1.messages + [ReplyMessage(reply)] == s.messages + [user, ReplyMessage(reply)];
  }

  /** Sending with no active session: a new session holding the greeting, the
      user's message and the reply is put first and made active, and the
      history sent is the greeting alone. */
  lemma SendFirstMessage(c: Coach, reply: Reply, aiTitle: Option<string>, idNow: nat, createdNow: int)
    requires CanSend(c) && NoActive(c.activeId)
    requires forall i :: 0 <= i < |c.sessions| ==> c.sessions[i].id != NatToString(idNow)
    ensures
      var r := SendMessage(c, reply, aiTitle, idNow, createdNow);
      && r.history == Some([InitialMessage])
      && |r.coach.sessions| == |c.sessions| + 1
      && r.coach.sessions[1..] == c.sessions
      && r.coach.sessions[0].messages == [InitialMessage, Message(UserRole, c.input), ReplyMessage(reply)]
      && r.coach.activeId == Some(NatToString(idNow))
  {
    var user := Message(UserRole, c.input);
    var c1 := NewSession(c.(input := ""), user, aiTitle, idNow, createdNow);
    assert SendMessage(c, reply, aiTitle, idNow, createdNow) == Answer(c1, c1.sessions[0], reply);
    AnswerFirst(c1, c.sessions, user, reply);
  }

  /** Answering in a session put first before `rest`, holding the greeting
      and the user's message. */
  lemma AnswerFirst(c1: Coach, rest: seq<ChatSession>, user: Message, reply: Reply)
    requires |c1.sessions| == |rest| + 1 && c1.sessions[1..] == rest
    requires c1.sessions[0].messages == [InitialMessage, user]
    requires forall i :: 0 <= i < |rest| ==> rest[i].id != c1.sessions[0].id
    ensures
      var r := Answer(c1, c1.sessions[0], reply);
      && r.history == Some([InitialMessage])
      && |r.coach.sessions| == |rest| + 1
      && r.coach.sessions[1..] == rest
      && r.coach.sessions[0].messages == [InitialMessage, user, ReplyMessage(reply)]
      && r.coach.activeId == c1.activeId
  {
    var s := c1.sessions[0];
    var done := s.(messages := s.messages + [ReplyMessage(reply)]);
    assert s.messages[..|s.messages| - 1] == [InitialMessage];
    ReplaceFirst(c1.sessions, done);
  }

  /** Replacing by the id only the first session carries replaces just it. */
  lemma ReplaceFirst(sessions: seq<ChatSession>, s: ChatSession)
    requires |sessions| >= 1 && sessions[0].id == s.id
    requires forall i :: 1 <= i < |sessions| ==> sessions[i].id != s.id
    ensures ReplaceById(sessions, s) == [s] + sessions[1..]
  {
  }
}
