# NextStep Advisor: the state and string logic, in Dafny

NextStep Advisor is an Angular career assistant. Its main parts are:

- a resume builder with undo/redo;
- a local profile store kept in the browser;
- job search, saved cover letters, a learning roadmap and a chat coach;
- a mock interview and a PDF resume analyzer.

Almost all of its work is UI and calls to a language model. Around those calls sit small, deterministic pieces of state logic and string logic. This project models those pieces as immutable datatypes and pure functions, and proves what they promise.

Every model reply is a parameter of the operation that receives it. So are every `Date.now()` reading and the contents of storage. The Angular effect that writes the active user back into the stored table is the explicit `UserStore.Sync` step.

Modules, one per source file plus shared helpers:

- `Options`, `Strings`, `Seqs`: the JavaScript behaviour the components rely on:
  - `trim` over the ECMAScript whitespace set;
  - `split` on one character, and `join`;
  - `parseInt`, and `toString` of a natural number;
  - `replace(/c/g, …)`, `filter`, and `removeAt`/`insert`.
- `Records`: the stored records (resume, jobs, roadmap, chat sessions, cover letters, profile).
- `History`: the undo/redo history.
- `UserStore`: the profile table, the session key and the sync step.
- `LoginForm`: the login page's view switching, validation and dispatch.
- `ResumePreview`: the comma-separated skills list.
- `ResumeBuilder`: HTML escaping and the single-section export.
- `ResumeForm`: adding, removing and moving form entries, and re-running the last AI edit.
- `JobSearch`: saved jobs, the query built from the filters, and the filter panel.
- `RoadmapView`: step progress, toggling steps and learning preferences, and resource badges.
- `CoverLetters`: saving and deleting letters.
- `CareerCoach`: the session list, the active session, new-session titles and the send path.
- `MockInterview`: the conversation, its transcript, and reset.
- `PdfText`: joining the analyzer's pages and cleaning up the extracted text.

## Model

| member | source | states |
|---|---|---|
| History.Empty | src/services/history.service.ts:8-16 | the initial history is valid and empty, and neither undo nor redo is possible |
| History.AddState | src/services/history.service.ts:18-24 | keeps entries `0..pointer`, drops the redo tail, appends the state and makes it current; redo is impossible afterwards; undo is possible iff there was a current entry |
| History.Undo | src/services/history.service.ts:26-32 | with `canUndo`: the pointer moves back one and the entry there is returned, and redo becomes possible; without it: nothing changes and nothing is returned; the entries never change |
| History.Redo | src/services/history.service.ts:34-40 | the mirror of undo |
| History.Clear | src/services/history.service.ts:55-58 | empty history, pointer -1, both guards false |
| History.UndoThenRedo | src/services/history.service.ts:26-40 | undo then redo restores the history and returns the entry that was current before the undo |
| History.RedoThenUndo | src/services/history.service.ts:26-40 | redo then undo restores the history and returns the entry that was current before |
| History.AddAfterUndo | src/services/history.service.ts:18-32 | pushing after an undo discards the undone entry and every later one |
| History.DiscardRedoExample | src/services/history.service.ts:18-32 | after pushing a, b, c, undoing twice and pushing d, the history is exactly [a, d] |
| History.Run | src/services/history.service.ts:8-58 | every sequence of add, undo, redo and clear keeps `-1 <= pointer < |history|` |
| History.TriggerUndo | src/services/history.service.ts:43-47 | the undo signal fires only under `canUndo`; the form then shows the entry undo returned, and otherwise keeps its value |
| History.TriggerRedo | src/services/history.service.ts:49-53 | the redo signal fires only under `canRedo`; the form then shows the entry redo returned, and otherwise keeps its value |
| UserStore.Sync | src/services/user.service.ts:58-72 | with an active user, that user is stored under its email, every other record is kept, and the session key becomes the email; without one, the table is kept and the session key is removed |
| UserStore.SyncIdempotent | src/services/user.service.ts:58-72 | syncing a synced store changes nothing |
| UserStore.Restore | src/services/user.service.ts:48-55 | the active user is restored iff the stored session email is non-empty and maps to a record, and it is that record |
| UserStore.Register | src/services/user.service.ts:92-129 | a taken email is refused first, then a missing field, then a password shorter than 6, each with its own message; any refusal leaves the store unchanged; success makes a fresh "Job Seeker" profile with empty lists, no roadmap and the name and email copied into the resume |
| UserStore.Login | src/services/user.service.ts:131-146 | an unknown email and a wrong password fail with their own messages and change nothing; success makes the stored record itself the active user |
| UserStore.Logout | src/services/user.service.ts:148-150 | no active user, table kept; the next sync removes the session key |
| UserStore.UpdateResume | src/services/user.service.ts:154-156 | replaces only the resume of the active profile; a no-op without one |
| UserStore.UpdateSavedJobs | src/services/user.service.ts:158-160 | replaces only the saved jobs of the active profile; a no-op without one |
| UserStore.UpdateChatSessions | src/services/user.service.ts:162-164 | replaces only the chat sessions of the active profile; a no-op without one |
| UserStore.UpdateRoadmap | src/services/user.service.ts:166-168 | replaces only the roadmap of the active profile; a no-op without one |
| UserStore.UpdateSavedCoverLetters | src/services/user.service.ts:170-172 | replaces only the cover letters of the active profile; a no-op without one |
| UserStore.DuplicateRegisterKeepsRecord | src/services/user.service.ts:92-96 | registering a taken email, then syncing, leaves the synced store exactly as it was |
| UserStore.FailedLoginChangesNothing | src/services/user.service.ts:131-141 | a failed login, then a sync, leaves the synced store exactly as it was |
| UserStore.RegisterPersists | src/services/user.service.ts:107-127 | after a successful registration and a sync, the new profile is stored under its email, the session key is that email, and every earlier record is kept |
| UserStore.LoginKeepsTable | src/services/user.service.ts:131-146 | logging in and syncing never changes a table whose keys match its records' emails |
| LoginForm.ToggleView | src/components/login.component.ts:207-213 | the chosen view, no error, and empty name, email and password |
| LoginForm.ErrorFrom | src/components/login.component.ts:234 | the store's message is shown when it is non-empty, otherwise the fallback |
| LoginForm.OnLogin | src/components/login.component.ts:223-236 | an empty email or password gives the "enter your email and password" error without asking the store; otherwise there is no error iff the store logs the user in |
| LoginForm.OnRegister | src/components/login.component.ts:238-256 | a missing field, then a password shorter than 6, give their errors without asking the store; no error iff the store registers a fresh profile; every refusal leaves the store unchanged |
| LoginForm.OnSubmit | src/components/login.component.ts:215-221 | the login view can only log in an existing account and never changes the table; the register view can only create an account for a new email |
| LoginForm.RegisterRefusalIsDuplicate | src/components/login.component.ts:238-256 | once the form's own checks pass, the only refusal left is the taken email |
| LoginForm.FieldsCheckedBeforeDuplicate | src/components/login.component.ts:240-243 | for an incomplete form with a taken email, the form reports the missing fields while the store alone would report the taken email |
| LoginForm.LoginFallbackUnused | src/components/login.component.ts:234 | the store's login refusals are never empty, so the fallback text is never shown |
| ResumePreview.SkillsList | src/components/resume-preview.component.ts:258-261 | a missing or empty field gives no skills; otherwise the skills are exactly the non-empty trimmed comma-separated pieces, each as often as it occurs and in the field's order; every skill is non-empty, trimmed and comma-free, and there are at most commas + 1 of them |
| ResumePreview.PiecesFacts | src/components/resume-preview.component.ts:260 | the split, trimmed and filtered pieces are non-empty, trimmed and comma-free, at most commas + 1 of them |
| ResumePreview.SingleSkill | src/components/resume-preview.component.ts:260 | a comma-free non-blank field is the single trimmed skill |
| ResumePreview.SkillsRoundTrip | src/components/resume-preview.component.ts:260 | joining clean skills with commas and parsing them back gives the same skills in the same order |
| ResumeBuilder.EscapeHtml | src/components/resume-builder.component.ts:206-212 | the five chained replacements equal escaping character by character, and the result has no `<`, `>`, `"` or `'` |
| ResumeBuilder.EscapeOne | src/components/resume-builder.component.ts:207-212 | on one character the five passes give exactly that character's entity, or the character itself |
| ResumeBuilder.EscapeIsPerChar | src/components/resume-builder.component.ts:206-212 | the chained replacements equal the per-character reference escape on every string |
| ResumeBuilder.EscapeConcat | src/components/resume-builder.component.ts:206-212 | escaping distributes over concatenation, so nothing is escaped twice |
| ResumeBuilder.EscapePlain | src/components/resume-builder.component.ts:206-212 | text without the five special characters passes through unchanged |
| ResumeBuilder.EscapedAmpersands | src/components/resume-builder.component.ts:208-212 | every `&` in the output starts one of the five entities |
| ResumeBuilder.UnescapeEscape | src/components/resume-builder.component.ts:206-212 | decoding the five entities inverts the escape |
| ResumeBuilder.ReplaceAllConcat | src/components/resume-builder.component.ts:208 | a global one-character replace distributes over concatenation |
| ResumeBuilder.SectionHtml | src/components/resume-builder.component.ts:205-248 | the markup is empty iff the section is not Summary, Experience or Education; otherwise it is wrapped in the export `div` |
| ResumeBuilder.ExportSection | src/components/resume-builder.component.ts:250-257 | printing happens iff the section is exportable; the job is titled "<name> - Export" and its content is exactly the section's markup from `generateSectionHtml` |
| ResumeBuilder.SummaryReadBack | src/components/resume-builder.component.ts:214-218 | the Summary markup is the wrapper, the escaped header and `<p>`, then text that unescapes to the summary, then the closing tags: the summary can be read back from what is printed |
| JobSearch.HasUri | src/components/job-search.component.ts:196 | true iff some saved job has the URI |
| JobSearch.SaveJob | src/components/job-search.component.ts:194-201 | unchanged when the URI is already saved, else the job is appended; unique URIs stay unique |
| JobSearch.SaveJobTwice | src/components/job-search.component.ts:194-199 | saving twice is saving once, and the job's URI is then saved |
| JobSearch.RemoveSavedJob | src/components/job-search.component.ts:203-207 | removes exactly the element at the index, keeping the order of the rest; an out-of-range index changes nothing |
| JobSearch.SaveThenRemove | src/components/job-search.component.ts:194-206 | removing a job just saved at the end gives back the list |
| JobSearch.Criteria | src/components/job-search.component.ts:219-223 | one phrase per set filter, none iff every filter is empty; "at <company>", "with a salary around <salary>", "suitable for <experience> level" and "that are <location type>", each placed after the phrases of the set filters before it |
| JobSearch.DetailedQuery | src/components/job-search.component.ts:218-227 | the query alone when no filter is set, else the query, a space and the criteria joined by ", " |
| JobSearch.DetailedQueryExtends | src/components/job-search.component.ts:218-227 | the detailed query starts with the query and is longer iff some filter is set |
| JobSearch.CompanyOnly | src/components/job-search.component.ts:218-227 | with only a company: "<query> at <company>" |
| JobSearch.AllFilters | src/components/job-search.component.ts:218-227 | with all four filters: the four phrases in order, comma-separated |
| JobSearch.Open | src/components/job-search.component.ts:173-181 | the stored filters are loaded, and the panel starts open iff they exist and one is non-empty |
| JobSearch.Search | src/components/job-search.component.ts:209-227 | a blank query does nothing; otherwise the filters are stored and the detailed query is sent |
| JobSearch.SearchThenReopen | src/components/job-search.component.ts:173-212 | after a search, reopening the page restores those filters, with the panel open iff one is set |
| RoadmapView.CountDoneAll | src/components/roadmap.component.ts:280 | all steps are done iff the done count equals the step count |
| RoadmapView.FilterDoneCount | src/components/roadmap.component.ts:280 | the length of the filtered list is the done count |
| RoadmapView.CompletedSteps | src/components/roadmap.component.ts:280-281 | 0 without a roadmap, otherwise the number of completed steps, never more than the total |
| RoadmapView.Progress | src/components/roadmap.component.ts:282-285 | 0 without steps; otherwise the percentage rounded half up, pinned by its bracket, and never above 100 |
| RoadmapView.ProgressFull | src/components/roadmap.component.ts:282-285 | with fewer than 200 steps, progress is 100 iff every step is completed |
| RoadmapView.ProgressRoundsUp | src/components/roadmap.component.ts:284 | 199 of 200 steps done already shows 100 while a step is still open |
| RoadmapView.ToggleStep | src/components/roadmap.component.ts:316-325 | negates the completion of that step only, keeping the others and the step count; no roadmap or no such step changes nothing |
| RoadmapView.ToggleTwice | src/components/roadmap.component.ts:316-325 | toggling a step twice restores the roadmap |
| RoadmapView.ToggleCount | src/components/roadmap.component.ts:316-325 | toggling moves the completed count by exactly one in the matching direction |
| RoadmapView.ClearRoadmap | src/components/roadmap.component.ts:327-329 | no roadmap, no steps, progress 0 |
| RoadmapView.TogglePreference | src/components/roadmap.component.ts:296-304 | a present preference is removed everywhere and every other one kept as often as it occurs, in order; an absent one is appended |
| RoadmapView.ToggleAbsentTwice | src/components/roadmap.component.ts:296-304 | toggling an absent preference twice restores the list |
| RoadmapView.BadgeColor | src/components/roadmap.component.ts:306-314 | video, article, course and documentation map to their colours, ignoring case; anything else, or no type, is slate |
| RoadmapView.BadgeIgnoresCase | src/components/roadmap.component.ts:306-314 | types that lower-case alike get the same colour |
| RoadmapView.FreshRoadmap | src/components/roadmap.component.ts:408 | a generated roadmap keeps every field and step but starts with no step completed |
| RoadmapView.FreshProgress | src/components/roadmap.component.ts:408 | a generated roadmap has no completed step and progress 0 |
| CoverLetters.SaveLetter | src/components/cover-letter.component.ts:165-180 | an empty letter is not saved; otherwise the new letter, carrying the inputs, the clock reading as its id and that reading's decimal text as id, comes first, followed by the earlier ones in order |
| CoverLetters.DeleteLetter | src/components/cover-letter.component.ts:182-185 | removes exactly the letters with that id and keeps every other letter as often as it occurs, in order |
| CoverLetters.SaveThenDelete | src/components/cover-letter.component.ts:165-185 | deleting a letter just saved under a fresh id gives back the list |
| CoverLetters.DeleteTwice | src/components/cover-letter.component.ts:182-185 | deleting twice is deleting once |
| CareerCoach.FindIndex | src/components/career-coach.component.ts:128 | the first session with the id, or none iff no session has it |
| CareerCoach.ActiveSession | src/components/career-coach.component.ts:138-144 | none without an active id; otherwise the listed session with that id, or none iff no session has it |
| CareerCoach.ActiveSessionTitle | src/components/career-coach.component.ts:123-130 | "Always here to help" unless the active session exists, else "Reviewing: " and its title |
| CareerCoach.ActiveConversation | src/components/career-coach.component.ts:138-144 | the greeting alone when there is no active id or it is not found, else that session's messages |
| CareerCoach.SortNewestFirst | src/components/career-coach.component.ts:162 | ordered by creation time, newest first, and a permutation of the input |
| CareerCoach.SortSorted | src/components/career-coach.component.ts:162 | sorting a list already newest first changes nothing |
| CareerCoach.LoadSessions | src/components/career-coach.component.ts:157-165 | the user's sessions, newest first, as a permutation; without a user the list is kept |
| CareerCoach.DeleteSession | src/components/career-coach.component.ts:194-200 | removes exactly the sessions with that id, keeps every other session as often as it occurs and in order, and clears the active id iff it was that id |
| CareerCoach.DeleteKeepsOrder | src/components/career-coach.component.ts:194-200 | deleting from a newest-first list keeps it newest first |
| CareerCoach.TitleAsWritten | src/components/career-coach.component.ts:204-209 | the source's title rule: "New Chat" for no title or a blank one, else the model's title with every `"` removed and then trimmed; never contains a quote and is trimmed |
| CareerCoach.PlainTitle | src/components/career-coach.component.ts:207-208 | a non-blank model title without quotes becomes its trimmed self, which is not empty |
| CareerCoach.QuotesOnlyTitle | src/components/career-coach.component.ts:207-208 | a model title made only of quotes passes the blank check and yields an empty title: the new session is saved untitled and the header reads "Reviewing: " alone |
| CareerCoach.SessionTitle | src/components/career-coach.component.ts:204-209 | the evidently intended title rule, not the one written: never empty, no quote, trimmed, falling back to "New Chat" whenever the written rule gives an empty title |
| CareerCoach.NewSession | src/components/career-coach.component.ts:202-227 | the new session holds the greeting and the first message, carries the title as the source computes it, goes first, and becomes active |
| CareerCoach.NewSessionIsActive | src/components/career-coach.component.ts:215-224 | after creation, the shown conversation is that session's and the header names its title as computed |
| CareerCoach.NewSessionStaysFirst | src/components/career-coach.component.ts:157-165 | when the clock reading is not older than any listed session, the list written back is newest first, so the loading effect's re-sort leaves the new session first |
| CareerCoach.SendMessage | src/components/career-coach.component.ts:229-249 | a blank input or a pending request does nothing; an active id that no session has only clears the input |
| CareerCoach.Answer | src/components/career-coach.component.ts:250-285 | the history sent excludes the last message, and the reply (or the error text) is appended to that session only |
| CareerCoach.SendInSession | src/components/career-coach.component.ts:229-277 | in an open session, the history is its earlier messages, then the user message and the reply are appended, and other sessions are untouched |
| CareerCoach.SendFirstMessage | src/components/career-coach.component.ts:229-277 | without an active session, a new one is created, active and first; its history is the greeting alone |
| ResumeForm.AddExperience | src/components/resume-form.component.ts:515-517 | appends an empty experience and changes nothing else |
| ResumeForm.AddEducation | src/components/resume-form.component.ts:523-525 | appends an empty education entry and changes nothing else |
| ResumeForm.AddCustomSection | src/components/resume-form.component.ts:531-533 | appends a section titled "Custom Section" with empty content and changes nothing else |
| ResumeForm.RemoveExperience | src/components/resume-form.component.ts:519-521 | removes exactly that entry; an out-of-range index changes nothing |
| ResumeForm.RemoveEducation | src/components/resume-form.component.ts:527-529 | removes exactly that entry; an out-of-range index changes nothing |
| ResumeForm.RemoveCustomSection | src/components/resume-form.component.ts:535-537 | removes exactly that section; an out-of-range index changes nothing |
| ResumeForm.AddThenRemove | src/components/resume-form.component.ts:515-537 | removing the entry just added gives back the form |
| ResumeForm.MoveSection | src/components/resume-form.component.ts:539-550 | a target out of range changes nothing; otherwise the section lands at the target, as a permutation of the same length |
| ResumeForm.MoveIsSwap | src/components/resume-form.component.ts:548-549 | a move by one swaps the two neighbours |
| ResumeForm.MoveUpThenDown | src/components/resume-form.component.ts:539-550 | moving up and then back down restores the order |
| ResumeForm.MoveAndBack | src/components/resume-form.component.ts:539-550 | a move followed by the opposite move from the new place restores the order |
| ResumeForm.OnUserInputChange | src/components/resume-form.component.ts:552-556 | forgets the last AI action iff its path is the edited one |
| ResumeForm.RerunLastAiAction | src/components/resume-form.component.ts:558-577 | nothing without a last action; summary reruns the summary; polish reruns `enhanceExperience` on an experience path and the named field otherwise; points rerun `generatePoints` on an experience path and nothing otherwise; the index is read from the second dot-separated part |
| ResumeForm.PathIndexRoundTrip | src/components/resume-form.component.ts:566-567 | the index parsed back from an experience description path is the index it was built from |
| ResumeForm.GeneratePointsAt | src/components/resume-form.component.ts:602-621 | needs role and company and a non-empty answer; the description becomes the points when empty, else itself, a blank line and the points; only that description changes |
| ResumeForm.PointsAppend | src/components/resume-form.component.ts:613-615 | generating points never loses text: the old description is a prefix of the new one |
| ResumeForm.EnhanceExperience | src/components/resume-form.component.ts:590-600 | a non-empty description and a non-empty answer replace that description, and the action is remembered |
| ResumeForm.GenerateSummaryWith | src/components/resume-form.component.ts:623-639 | a non-empty answer replaces the summary, and the action is remembered |
| ResumeForm.RerunAfterPoints | src/components/resume-form.component.ts:558-616 | right after generating points, the rerun generates points for the same experience |
| ResumeForm.RerunAfterPolish | src/components/resume-form.component.ts:558-600 | right after polishing an experience, the rerun polishes the same experience |
| ResumeForm.EditForgetsAction | src/components/resume-form.component.ts:552-616 | editing the field an AI action wrote leaves nothing to rerun |
| PdfText.CollapseSpaces | src/components/resume-analyzer.component.ts:410 | no two spaces in a row; only spaces are removed; the first and last characters stay; the pairs of neighbouring characters are exactly the input's minus the double space, so no separating space disappears |
| PdfText.TrimLines | src/components/resume-analyzer.component.ts:411 | the result's lines are exactly the input's lines, each trimmed; so every line starts and ends without whitespace, no double space appears, and the non-whitespace text is kept in order |
| PdfText.TrimLinesWords | src/components/resume-analyzer.component.ts:411 | trimming the lines keeps the words: the runs of non-whitespace characters and their order |
| PdfText.CollapseNewlines | src/components/resume-analyzer.component.ts:412 | no three newlines in a row; only newlines are removed; the first and last characters stay; the pairs of neighbouring characters are exactly the input's, so no line break between two lines disappears |
| PdfText.TrimKeeps | src/components/resume-analyzer.component.ts:414 | the final trim keeps the guarantees of the earlier steps |
| PdfText.Clean | src/components/resume-analyzer.component.ts:409-414 | only whitespace between words changes: the words (maximal runs of non-whitespace characters) are the input's, in order, and so is the non-whitespace text; the result has no double space and no three newlines in a row, every line is trimmed, and the whole is trimmed |
| PdfText.CollapseSpacesText | src/components/resume-analyzer.component.ts:410 | collapsing spaces keeps the non-whitespace text and the words exactly |
| PdfText.CollapseNewlinesText | src/components/resume-analyzer.component.ts:412 | collapsing newlines keeps the non-whitespace text and the words exactly |
| PdfText.CleanIdempotent | src/components/resume-analyzer.component.ts:409-414 | cleaning clean text changes nothing |
| PdfText.CollapseSpacesFixed | src/components/resume-analyzer.component.ts:410 | collapsing spaces in text without a double space changes nothing |
| PdfText.TrimLinesFixed | src/components/resume-analyzer.component.ts:411 | trimming the lines of text whose lines are trimmed changes nothing |
| PdfText.CollapseNewlinesFixed | src/components/resume-analyzer.component.ts:412 | capping newline runs in text without three in a row changes nothing |
| PdfText.JoinPages | src/components/resume-analyzer.component.ts:356-407 | pages without items add nothing, so no such page gives ""; otherwise the text ends in a blank line |
| PdfText.JoinPagesSkips | src/components/resume-analyzer.component.ts:360-362 | only the pages with items, in their order, determine the joined text |
| PdfText.TwoPages | src/components/resume-analyzer.component.ts:406 | every page with items is followed by "\n\n" |
| PdfText.ExtractedText | src/components/resume-analyzer.component.ts:353-414 | the analyzer's text meets the cleanup guarantees, has exactly the words of the joined pages in order, and is empty when no page has items |
| MockInterview.Start | src/components/mock-interview.component.ts:119-131 | a blank role does nothing; otherwise the interview starts for that role and the introduction is appended |
| MockInterview.Reply | src/components/mock-interview.component.ts:133-151 | a blank answer does nothing; otherwise the answer, then the next question, are appended, the input is cleared, and the transcript sent covers the conversation up to and including the answer |
| MockInterview.ReplyTranscriptEndsWithAnswer | src/components/mock-interview.component.ts:138-141 | the transcript the model sees ends with "Candidate: " and the answer |
| MockInterview.TranscriptRoundTrip | src/components/mock-interview.component.ts:141 | a transcript of single-line turns reads back as the conversation: one labelled line per turn, in order |
| MockInterview.TranscriptAppend | src/components/mock-interview.component.ts:141 | appending a turn adds a newline and its labelled line to the transcript |
| MockInterview.EndInterview | src/components/mock-interview.component.ts:153-181 | a report becomes the feedback, a failed one keeps the old feedback, and the transcript sent reads back as the conversation |
| MockInterview.Reset | src/components/mock-interview.component.ts:183-188 | not started, no conversation, no feedback, empty custom role; the other fields are kept |
| MockInterview.RunOnlyAppends | src/components/mock-interview.component.ts:129-149 | without a reset, the conversation only grows at its end |
| MockInterview.RunAlternates | src/components/mock-interview.component.ts:138-149 | every answer of the candidate is directly followed by a question of the interviewer |
| Strings.Trim | src/components/resume-preview.component.ts:260 | the result is trimmed, is a slice of the input, and is empty iff the input is blank; everything dropped before and after the slice is whitespace |
| Strings.NonWsTrim | src/components/resume-preview.component.ts:260 | trimming keeps the non-whitespace text exactly |
| Strings.WordsSplitAt | src/components/resume-analyzer.component.ts:411 | a whitespace character separates: the words of `x + [w] + y` are the words of `x` followed by those of `y` |
| Strings.WordsTrim | src/components/resume-analyzer.component.ts:414 | trimming keeps the words |
| Strings.RemoveChar | src/components/career-coach.component.ts:208 | `replace(/c/g, '')`: every other character is kept as often as it occurs and in order, and `c` is gone |
| Strings.TrimIdempotent | src/components/resume-preview.component.ts:260 | trimming twice is trimming once |
| Strings.Split | src/components/resume-preview.component.ts:260 | one piece more than separators, none containing the separator |
| Strings.JoinSplit | src/components/resume-analyzer.component.ts:411 | joining the pieces of a split with the separator gives back the input |
| Strings.SplitJoin | src/components/mock-interview.component.ts:141 | splitting a join of separator-free pieces gives back the pieces |
| Strings.ParseIntRoundTrip | src/components/resume-form.component.ts:566 | parsing the decimal text of a number gives that number |
| Seqs.Filter | src/components/cover-letter.component.ts:183 | every kept element passes and comes from the input, every passing element is kept, and no element is kept more often than it occurs |
| Seqs.FilterCounts | src/components/cover-letter.component.ts:183 | each passing element is kept exactly as often as it occurs, and every other element is dropped |
| Seqs.FilterSubseq | src/components/cover-letter.component.ts:183 | the kept elements appear in the input's order |
| Seqs.RemoveAt | src/components/resume-form.component.ts:520 | removes exactly one index, and an out-of-range index changes nothing |
| Seqs.RemoveInserted | src/components/resume-form.component.ts:548-549 | removing what was just inserted at an index gives back the list |

## Left out

- The language model, the HTTP client and the REST-backed store are left out. Every model answer, streamed chunk and report is a parameter; a failed call is `None` or `Failed`.
- `localStorage` JSON, Angular signals and effects, debouncing and timers are left out. Storage is a `map` plus an optional session key, and the effect is the explicit `UserStore.Sync` step. Absent optional lists on a profile are modelled as empty lists.
- `Date.now()` readings are parameters. Ids are the decimal text of the reading; their uniqueness is assumed where a lemma needs it, as the code does not ensure it.
- Routing, navigation after login, `alert`, the clipboard, scrolling, markdown rendering (`marked`, `displayHtml`) and the print iframe are left out.
- The PDF library and the coordinate sort and gap heuristics that build a page's text are left out; they work on floating-point positions. A page is its item count and its text.
- The score ring offset and the zoom clamp are left out; they are floating-point UI maths.
- `enhanceField` on arbitrary form paths is left out: it needs the reactive form's dynamic path lookup. Rerunning it is modelled only as a request `RerunEnhanceField(path)`.
- Suppressing history pushes during undo/redo, and rebuilding the form from a snapshot, are left out. The push runs in a debounced subscriber, so the suppression is not a property of the code.
- `CareerCoach.SendMessage`: a stream that fails part-way is modelled like a stream that fails at once. The error message is appended, and like the source it is not persisted.
- `RoadmapView.ProgressFull`: `Math.round` is idealised as exact rounding half up of `100 * completed / total`. "100 iff all done" is proved only for fewer than 200 steps, because 199 of 200 rounds up to 100 (`RoadmapView.ProgressRoundsUp`).
- `RoadmapView.BadgeColor`: `toLowerCase` is modelled on ASCII letters only. That is exact for matching the four known types, but not for other non-ASCII text.
- `ResumeForm.RemoveExperience`, `ResumeForm.RemoveEducation`, `ResumeForm.RemoveCustomSection`: a negative index is treated as out of range. Newer Angular versions count a negative index from the end.
- `ResumeForm.MoveSection`: requires the index to be that of an existing section; the template only passes indices of rendered sections.
- `ResumeForm.GeneratePointsAt`, `ResumeForm.EnhanceExperience`: require an existing experience index, as the source reads the group at that index unchecked.
- `RoadmapView.ToggleStep`: an out-of-range index throws in the source before anything is stored. It is modelled as leaving the roadmap unchanged.
- `LoginForm.OnRegister`, `UserStore.Register`: password length counts characters, not UTF-16 code units, so they differ only for characters outside the Basic Multilingual Plane.
- `Seqs.Filter`: its own contract gives membership and a multiset bound. The exact counts are `Seqs.FilterCounts` and the order is `Seqs.FilterSubseq`; the list edits built on it state all three.
- `UserStore.Register`, `UserStore.Login`: the source looks accounts up as `db[email]` on a plain object, so a name inherited from `Object.prototype` (`"constructor"`, `"toString"`, `"__proto__"`) is found there. For such an email the source refuses registration as taken and answers login with "Incorrect password."; the model's `map` treats it as absent.
- `CareerCoach.NewSession`: the source writes `[newSession, ...allSessions]` back, and the loading effect then re-sorts the list newest first. The model keeps the written order, which is what the re-sort gives only when `Date.now()` is not older than every listed session (`CareerCoach.NewSessionStaysFirst`); clock readings going backwards are not modelled.
- `CareerCoach.SortNewestFirst`: stability of the sort among equal timestamps is not stated.
- `MockInterview.Start`, `MockInterview.Reply`, `MockInterview.EndInterview`: the loading flag is modelled only in its state after the model has answered.

## Findings

| source | as written | input that shows it | evidently intended | confidence | as-written member | corrected member |
|---|---|---|---|---|---|---|
| src/components/career-coach.component.ts:207-208 | the blank check runs on the raw model title, and the quotes are removed afterwards | a model title of `""` (two double quotes): it is not blank, and it strips to the empty string, so the session is saved with an empty title | a title that is never empty, falling back to "New Chat" | not executed | CareerCoach.QuotesOnlyTitle | CareerCoach.SessionTitle |
