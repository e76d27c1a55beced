/** The mock interview: a conversation that starts with the interviewer's
    introduction and then alternates the candidate's answers with the
    interviewer's next questions, the transcript sent to the model, and the
    reset. The model's replies and its report are parameters. */
module MockInterview {
  import opened Options
  import opened Strings

  datatype Speaker = Candidate | Interviewer

  datatype Turn = Turn(speaker: Speaker, text: string)

  /** The report the model returns at the end. */
  datatype Report = Report(technicalScore: int, communicationScore: int, strengths: string, improvements: string)

  /** The component state once every pending model call has answered. */
  datatype Interview = Interview(
    conversation: seq<Turn>,
    userReply: string,
    loading: bool,
    started: bool,
    currentRole: string,
    customRole: string,
    feedback: Option<Report>)

  const CandidatePrefix: string := "Candidate: "
  const InterviewerPrefix: string := "Interviewer: "

  // Transcript

  /** One transcript line: the speaker's label, a colon and a space, the text. */
  function Line(t: Turn): (r: string)
    ensures t.speaker == Candidate ==> StartsWith(r, CandidatePrefix) && r[|CandidatePrefix|..] == t.text
    ensures t.speaker == Interviewer ==> StartsWith(r, InterviewerPrefix) && r[|InterviewerPrefix|..] == t.text
  {
    (if t.speaker == Candidate then CandidatePrefix else InterviewerPrefix) + t.text
  }

  function Lines(conversation: seq<Turn>): (r: seq<string>)
    ensures |r| == |conversation|
    ensures forall i :: 0 <= i < |r| ==> r[i] == Line(conversation[i])
  {
    if |conversation| == 0 then [] else [Line(conversation[0])] + Lines(conversation[1..])
  }

  /** The history text: one line per turn, in conversation order. */
  function Transcript(conversation: seq<Turn>): string {
    Join(Lines(conversation), "\n")
  }

  /** Reading a line back: its label decides the speaker. */
  function ParseLine(line: string): (r: Option<Turn>)
    ensures r.Some? ==> Line(r.value) == line
  {
    if StartsWith(line, CandidatePrefix) then
      assert line == CandidatePrefix + line[|CandidatePrefix|..];
      Some(Turn(Candidate, line[|CandidatePrefix|..]))
    else if StartsWith(line, InterviewerPrefix) then
      assert line == InterviewerPrefix + line[|InterviewerPrefix|..];
      Some(Turn(Interviewer, line[|InterviewerPrefix|..]))
    else None
  }

  /** Reading lines back; `None` when some line has no label. */
  function ParseLines(lines: seq<string>): (r: Option<seq<Turn>>)
    ensures r.Some? ==> |r.value| == |lines|
  {
    if |lines| == 0 then Some([])
    else match (ParseLine(lines[0]), ParseLines(lines[1..]))
      case (Some(t), Some(ts)) => Some([t] + ts)
      case _ => None
  }

  /** Reading a transcript back into turns. */
  function ParseTranscript(s: string): Option<seq<Turn>> {
    if s == "" then Some([]) else ParseLines(Split(s, '\n'))
  }

  predicate SingleLine(t: Turn) {
    '\n' !in t.text
  }

  lemma {:induction false} ParseLineLine(t: Turn)
    ensures ParseLine(Line(t)) == Some(t)
  {
    var l := Line(t);
    if t.speaker == Interviewer {
      assert l[..|CandidatePrefix|] != CandidatePrefix by {
        assert l[0] == 'I';
      }
    }
  }

  lemma {:induction false} ParseLinesLines(conversation: seq<Turn>)
    ensures ParseLines(Lines(conversation)) == Some(conversation)
  {
    if |conversation| > 0 {
      ParseLineLine(conversation[0]);
      ParseLinesLines(conversation[1..]);
      assert Lines(conversation)[1..] == Lines(conversation[1..]);
      assert conversation == [conversation[0]] + conversation[1..];
    }
  }

  /** A transcript of single-line turns reads back as the conversation. */
  lemma TranscriptRoundTrip(conversation: seq<Turn>)
    requires forall i :: 0 <= i < |conversation| ==> SingleLine(conversation[i])
    ensures ParseTranscript(Transcript(conversation)) == Some(conversation)
  {
    var lines := Lines(conversation);
    if |conversation| > 0 {
      forall i | 0 <= i < |lines| ensures '\n' !in lines[i] {
        var pre := if conversation[i].speaker == Candidate then CandidatePrefix else InterviewerPrefix;
        assert lines[i] == pre + conversation[i].text;
      }
      SplitJoin(lines, '\n');
      assert Transcript(conversation) != "" by {
        assert |Transcript(conversation)| >= |lines[0]|;
      }
      ParseLinesLines(conversation);
    }
  }

  lemma SingleLineRoundTrip(conversation: seq<Turn>)
    ensures (forall i :: 0 <= i < |conversation| ==> SingleLine(conversation[i])) ==>
      ParseTranscript(Transcript(conversation)) == Some(conversation)
  {
    if forall i :: 0 <= i < |conversation| ==> SingleLine(conversation[i]) {
      TranscriptRoundTrip(conversation);
    }
  }

  /** The transcript grows by a newline and one line per appended turn. */
  lemma TranscriptAppend(conversation: seq<Turn>, t: Turn)
    ensures Transcript(conversation + [t]) ==
      if |conversation| == 0 then Line(t) else Transcript(conversation) + "\n" + Line(t)
  {
    LinesAppend(conversation, t);
    JoinAppend(Lines(conversation), Line(t), "\n");
  }

  lemma LinesAppend(conversation: seq<Turn>, t: Turn)
    ensures Lines(conversation + [t]) == Lines(conversation) + [Line(t)]
  {
  }

  lemma {:induction false} JoinAppend(parts: seq<string>, last: string, sep: string)
    ensures Join(parts + [last], sep) == if |parts| == 0 then last else Join(parts, sep) + sep + last
  {
    if |parts| > 1 {
      JoinAppend(parts[1..], last, sep);
      assert (parts + [last])[1..] == parts[1..] + [last];
    } else if |parts| == 1 {
      assert (parts + [last])[1..] == [last];
    }
  }

  // Operations

  function Initial(): (r: Interview)
    ensures !r.started && r.conversation == [] && r.feedback.None?
  {
    Interview([], "", false, false, "", "", None)
  }

  /** `start(role)`: a blank role does nothing; otherwise the interview is
      started for that role and the introduction is appended. */
  function Start(iv: Interview, role: string, intro: string): (r: Interview)
    ensures IsBlank(role) ==> r == iv
    ensures !IsBlank(role) ==> r.started && r.currentRole == role && !r.loading
    ensures !IsBlank(role) ==> r.conversation == iv.conversation + [Turn(Interviewer, intro)]
    ensures !IsBlank(role) ==> r.userReply == iv.userReply && r.customRole == iv.customRole && r.feedback == iv.feedback
  {
    if IsBlank(role) then iv
    else iv.(started := true, currentRole := role, loading := false,
             conversation := iv.conversation + [Turn(Interviewer, intro)])
  }

  /** `reply()`: a blank answer does nothing; otherwise the answer is taken
      out of the input box and appended, the transcript including it is
      what the model sees, and the model's next question is appended
      after it. The second component is that transcript. */
  function Reply(iv: Interview, nextQuestion: string): (r: (Interview, Option<string>))
    ensures IsBlank(iv.userReply) ==> r == (iv, None)
    ensures !IsBlank(iv.userReply) ==>
      && r.0.conversation == iv.conversation + [Turn(Candidate, iv.userReply), Turn(Interviewer, nextQuestion)]
      && r.0.userReply == "" && !r.0.loading
      && r.0.started == iv.started && r.0.currentRole == iv.currentRole && r.0.feedback == iv.feedback
    ensures !IsBlank(iv.userReply) ==> r.1 == Some(Transcript(iv.conversation + [Turn(Candidate, iv.userReply)]))
  {
    if IsBlank(iv.userReply) then (iv, None)
    else
      var answered := iv.conversation + [Turn(Candidate, iv.userReply)];
      assert answered + [Turn(Interviewer, nextQuestion)] == iv.conversation + [Turn(Candidate, iv.userReply), Turn(Interviewer, nextQuestion)];
      (iv.(userReply := "", loading := false, conversation := answered + [Turn(Interviewer, nextQuestion)]),
       Some(Transcript(answered)))
  }

  /** The transcript the model sees ends with the candidate's answer. */
  lemma ReplyTranscriptEndsWithAnswer(iv: Interview, nextQuestion: string)
    requires !IsBlank(iv.userReply)
    ensures var sent := Reply(iv, nextQuestion).1.value;
      |sent| >= |CandidatePrefix + iv.userReply| &&
      sent[|sent| - |CandidatePrefix + iv.userReply|..] == CandidatePrefix + iv.userReply
  {
    TranscriptAppend(iv.conversation, Turn(Candidate, iv.userReply));
  }

  /** `endInterview()`: the report, when the model gives one, becomes the
      feedback; a failed report leaves the feedback as it was. */
  function EndInterview(iv: Interview, report: Option<Report>): (r: (Interview, string))
    ensures report.Some? ==> r.0.feedback == report
    ensures report.None? ==> r.0.feedback == iv.feedback
    ensures r.0.conversation == iv.conversation && !r.0.loading
    ensures (forall i :: 0 <= i < |iv.conversation| ==> SingleLine(iv.conversation[i])) ==>
      ParseTranscript(r.1) == Some(iv.conversation)
  {
    SingleLineRoundTrip(iv.conversation);
    (iv.(feedback := if report.Some? then report else iv.feedback, loading := false),
     Transcript(iv.conversation))
  }

  /** `reset()`: not started, no conversation, no feedback, no custom role;
      the input box and the last role stay as they were. */
  function Reset(iv: Interview): (r: Interview)
    ensures !r.started && r.conversation == [] && r.feedback.None? && r.customRole == ""
    ensures r.userReply == iv.userReply && r.currentRole == iv.currentRole && r.loading == iv.loading
  {
    iv.(started := false, conversation := [], feedback := None, customRole := "")
  }

  // Runs

  /** What the user can do on the page. */
  datatype Event =
    | StartWith(role: string, intro: string)
    | Type(text: string)
    | Answer(nextQuestion: string)
    | End(report: Option<Report>)

  function Step(iv: Interview, e: Event): Interview {
    match e
    case StartWith(role, intro) => Start(iv, role, intro)
    case Type(text) => iv.(userReply := text)
    case Answer(q) => Reply(iv, q).0
    case End(report) => EndInterview(iv, report).0
  }

  function Run(iv: Interview, events: seq<Event>): Interview
    decreases |events|
  {
    if |events| == 0 then iv else Run(Step(iv, events[0]), events[1..])
  }

  /** Without a reset the conversation only ever grows at its end. */
  lemma {:induction false} RunOnlyAppends(iv: Interview, events: seq<Event>)
    ensures iv.conversation <= Run(iv, events).conversation
    decreases |events|
  {
    if |events| > 0 {
      var next := Step(iv, events[0]);
      assert iv.conversation <= next.conversation;
      RunOnlyAppends(next, events[1..]);
    }
  }

  /** Every answer of the candidate is followed by a question of the
      interviewer. */
  predicate Alternates(conversation: seq<Turn>) {
    forall i :: 0 <= i < |conversation| && conversation[i].speaker == Candidate ==>
      i + 1 < |conversation| && conversation[i + 1].speaker == Interviewer
  }

  lemma StepAlternates(iv: Interview, e: Event)
    requires Alternates(iv.conversation)
    ensures Alternates(Step(iv, e).conversation)
  {
    var c, d := iv.conversation, Step(iv, e).conversation;
    if e.Answer? && !IsBlank(iv.userReply) {
      forall i | 0 <= i < |d| && d[i].speaker == Candidate
        ensures i + 1 < |d| && d[i + 1].speaker == Interviewer
      {
        if i < |c| {
          assert d[i] == c[i];
          if i + 1 < |c| {
            assert d[i + 1] == c[i + 1];
          }
        }
      }
    }
  }

  /** Starting, typing, answering and ending keep answers and questions
      paired. */
  lemma {:induction false} RunAlternates(iv: Interview, events: seq<Event>)
    requires Alternates(iv.conversation)
    ensures Alternates(Run(iv, events).conversation)
    decreases |events|
  {
    if |events| > 0 {
      StepAlternates(iv, events[0]);
      RunAlternates(Step(iv, events[0]), events[1..]);
    }
  }
}
