# Chat session state of the AI-Assistant client, in Dafny

This project models the state logic of the chat screen of the AI-Assistant
React client. Three components hold it:

- **Content** (`AI/src/components/Content.jsx`) does the following:
  - takes a question, rejects blank input and appends a pending entry to the transcript;
  - removes every `*` from the answering service's reply;
  - reveals the reply with an interval that overwrites the last entry with ever longer prefixes;
  - on failure, writes a fixed error answer;
  - keeps the mutually exclusive like/dislike sets, which are frozen while loading, and the copy notice;
  - writes the transcript to local storage after every change;
  - renders each answer line by line, splitting each line at its first `:`.
- **Slider** (`AI/src/components/Slider.jsx`) keeps a local mirror of the saved conversations. It has:
  - confirm-then-commit delete-one and delete-all;
  - resuming a conversation;
  - "new chat";
  - the user profile with its placeholders.
- **Structure** (`AI/src/components/Structure.jsx`) owns the transcript and seeds it from local storage on mount. It also guards the suggestion clicks with a processing flag and flips the sidebar and the theme.

Modules:

- `State` (state.dfy) holds the shared state, written as small classes passed by reference, the way React passes state and setters down:
  - the transcript `History`;
  - `LocalStorage`, as a map from keys to transcripts;
  - the sidebar flag;
  - the theme context;
  - the storage functions `Saved`, `Removed` and `Restored`.
- `Text` (text.dfy) holds the pure text functions of Content:
  - the `trim()` test;
  - the `*` removal;
  - `substring` prefixes and the frames of the reveal;
  - the `split("\n")` and `indexOf(":")` display parse.
- `Content` (content.dfy) holds the class `Session` (the Content component) and the reaction toggle `Toggled`.
- `Slider` (slider.dfy) holds the class `Directory` (the Slider component), the `_id` filter and the profile rule.
- `Structure` (structure.dfy) holds the class `Shell` (the Structure component), the theme rule, and reload and stale-tick scenarios built from the classes.

Each remote call is a parameter that carries its outcome:

- the answering reply: `Replied(text)` or `Failed`;
- a delete: `Status(code)` or `Threw`;
- the listing: `Listed(conversations)` or `ListThrew(status)`;
- the profile: `ProfileThrew`, or `ProfileAnswered(success, user)`.

The `Answer` function is split at its `await`:

1. `Session.Answer` is the synchronous part.
2. `Session.Settle` handles the reply or the catch path.
3. `Session.Tick` is one interval callback.
4. `Session.RevealAll` runs the interval to its end.

Each handler, tick and effect is one atomic step.

The model follows the code as written; in particular:

- `Answer` has no single-flight check. Only blank input is refused.
- Reactions are gated on the global `isLoading` flag, not on the state of the target entry.
- "New chat" and delete-all do not cancel a running reveal. `StaleTickAfterNewChat` shows an old tick overwriting the next question's entry.
- An entry has no pending or complete status; only the global `isLoading` flag shows that a reveal is running.
- A failed listing with status 401 is only logged.
- The processing flag is released as soon as `triggerAnswer` returns, because the answer's promise is not returned. So the flag never spans an exchange.
- On mount the saved transcript is lost; see "## Findings".

## Model

| member | source | states |
|---|---|---|
| State.Saved | AI/src/components/Content.jsx:25-27 | the write under "chatHistory" changes only that key, which then holds exactly the transcript |
| State.Removed | AI/src/components/Slider.jsx:34 | `removeItem` drops only the "chatHistory" key |
| State.RestoreSaved | AI/src/components/Structure.jsx:15-20 | restoring after a write gives back the written transcript, whatever storage held and whatever is on screen (restore(store(t)) = t) |
| State.RestoreRemoved | AI/src/components/Structure.jsx:15-20 | with the key removed, restoring leaves the transcript as it is |
| Text.BlankIffAllWhitespace | AI/src/components/Content.jsx:55 | `!text.trim()` holds exactly when every character is ECMAScript whitespace |
| Text.StripStars | AI/src/components/Content.jsx:72 | the stripped reply has no `*` and is no longer than the reply |
| Text.StripStarsCount | AI/src/components/Content.jsx:72 | stripping removes every `*` and keeps every other character as often as it occurred |
| Text.StripStarsAppend | AI/src/components/Content.jsx:72 | stripping distributes over concatenation, so the kept characters stay in order |
| Text.StripStarsNoStar | AI/src/components/Content.jsx:72 | a text without `*` is unchanged |
| Text.StripStarsIdempotent | AI/src/components/Content.jsx:72 | stripping twice equals stripping once |
| Text.Take | AI/src/components/Content.jsx:82 | `substring(0, n)` is a prefix of length min(n, length) |
| Text.FramesReveal | AI/src/components/Content.jsx:74-92 | the tick frames number max(length, 1); each is a prefix of the answer; each is one character longer than the one before; the last is the whole answer; an empty answer gives the single frame `""` |
| Text.FrameAt | AI/src/components/Content.jsx:77-84 | tick k writes the first k + 1 characters (`substring(0, i + 1)`); the last tick writes the whole answer |
| Text.SplitLines | AI/src/components/Content.jsx:224 | `split("\n")` gives at least one line, and no line holds a newline |
| Text.JoinSplitLines | AI/src/components/Content.jsx:224 | joining the split lines with newlines gives the answer back |
| Text.IndexOf | AI/src/components/Content.jsx:225 | `indexOf(":")` is -1 exactly when there is no `:`; otherwise it is the position of the first `:` |
| Text.ParseLine | AI/src/components/Content.jsx:225-235 | a line without `:` is shown whole; otherwise the topic has no `:` and topic + ":" + content is the line |
| Text.RenderLossless | AI/src/components/Content.jsx:224-247 | the rendered paragraphs of an answer reassemble into the answer, so the display parse never alters the stored answer |
| Content.ReplaceLast | AI/src/components/Content.jsx:79-83 | overwriting the last slot keeps the length and every earlier entry; an empty transcript stays empty |
| Content.ReplaceLastTwice | AI/src/components/Content.jsx:78-85 | a later overwrite of the last slot wins over an earlier one |
| Content.TicksStep | AI/src/components/Content.jsx:77-84 | a tick applied to the transcript the trace ends with (the starting one before any tick) extends the trace by the transcript that tick writes |
| Content.TicksAt | AI/src/components/Content.jsx:77-84 | after tick k the transcript is the starting one with its last entry replaced by {question, first i + k + 1 characters} |
| Content.TicksFrames | AI/src/components/Content.jsx:74-92 | the remaining ticks of a reveal from counter i write frames i, i + 1, ... to the last one into the last entry |
| Content.ToggledSpec | AI/src/components/Content.jsx:136-170 | a click keeps liked and disliked disjoint; it marks the index exactly when it was unmarked; it leaves every other index as it was |
| Content.ToggledTwice | AI/src/components/Content.jsx:136-152 | two clicks on one button restore its set; the other set has lost the index |
| Content.Session.constructor | AI/src/components/Content.jsx:13-19 | empty input, not loading, empty reaction sets, hidden notice, no interval |
| Content.Session.Answer | AI/src/components/Content.jsx:54-63 | a blank question (all whitespace) changes nothing; any other clears the input, raises loading and appends exactly one entry {question, ""}; earlier entries are unchanged |
| Content.Session.TriggerAnswer | AI/src/components/Content.jsx:108-117 | the text is put in the input and answered; a blank text stays in the input |
| Content.Session.Settle | AI/src/components/Content.jsx:65-104 | on failure the last entry becomes {question, error text}, loading ends and earlier entries are untouched; on a reply the interval starts at 0 with the `*`-stripped text and nothing is written yet |
| Content.Session.Tick | AI/src/components/Content.jsx:77-92 | only the last entry changes, to {question, first i + 1 characters of the answer}; the counter advances by one; at the end of the answer the interval stops and loading ends |
| Content.Session.RevealAll | AI/src/components/Content.jsx:74-92 | the transcripts read back after each tick are `Ticks` of the starting one: one per remaining tick, tick k having written frame i + k into the last entry (`TicksFrames`); the last entry ends as {question, full stripped answer}; earlier entries are unchanged; the interval stops and loading ends |
| Content.Session.Like | AI/src/components/Content.jsx:136-152 | a no-op while loading; otherwise the like toggle, keeping liked and disliked disjoint |
| Content.Session.Dislike | AI/src/components/Content.jsx:154-170 | a no-op while loading; otherwise the mirror-image toggle |
| Content.Session.Copy | AI/src/components/Content.jsx:124-129 | a no-op while loading; otherwise shows the copy notice |
| Content.Session.HideNotice | AI/src/components/Content.jsx:131-133 | the timeout hides the notice |
| Content.Session.Persist | AI/src/components/Content.jsx:25-27 | storage becomes the old storage with "chatHistory" set to the transcript |
| Slider.OrElse | AI/src/components/Slider.jsx:75-76 | `v \|\| fallback`: a missing or empty value gives the fallback |
| Slider.ProfileAfter | AI/src/components/Slider.jsx:66-86 | a throw gives the placeholders; no `success` leaves the profile unchanged; success takes `name \|\| 'User'` and `email \|\| 'No email'`; a missing user record throws into the placeholders; a fetch that throws or succeeds never leaves a field blank |
| Slider.Without | AI/src/components/Slider.jsx:113-115 | the filtered mirror is no longer than before and holds no conversation with the deleted `_id` |
| Slider.WithoutCount | AI/src/components/Slider.jsx:113-115 | each conversation with another `_id` is kept as often as it occurred |
| Slider.WithoutAppend | AI/src/components/Slider.jsx:113-115 | filtering distributes over concatenation, so the kept conversations stay in order |
| Slider.WithoutAbsent | AI/src/components/Slider.jsx:113-115 | a mirror without that `_id` is unchanged |
| Slider.Directory.constructor | AI/src/components/Slider.jsx:8-15 | empty mirror, no selection, both popups closed, empty profile |
| Slider.Directory.Close | AI/src/components/Slider.jsx:19-28 | the sidebar closes |
| Slider.Directory.NewChat | AI/src/components/Slider.jsx:31-47 | the "chatHistory" key is removed, the transcript becomes `[]` and the sidebar closes |
| Slider.Directory.FetchUserData | AI/src/components/Slider.jsx:66-86 | the profile becomes `ProfileAfter` of the reply; nothing else changes |
| Slider.Directory.FetchConversations | AI/src/components/Slider.jsx:193-205 | a listing replaces the mirror; a failure, 401 included, leaves it unchanged |
| Slider.Directory.DeleteClick | AI/src/components/Slider.jsx:95-99 | selects the conversation and opens the confirmation |
| Slider.Directory.CancelDelete | AI/src/components/Slider.jsx:282-296 | closes the confirmation and keeps the selection |
| Slider.Directory.Delete | AI/src/components/Slider.jsx:101-125 | with no selection, or no `_id`, nothing changes; a throw raises the alert and changes nothing else; an answered request closes the popup and clears the selection; only status 200 removes exactly the conversations with that `_id` |
| Slider.Directory.DeleteAllClick | AI/src/components/Slider.jsx:127-129 | opens the delete-all confirmation |
| Slider.Directory.ConfirmDeleteAll | AI/src/components/Slider.jsx:131-147 | status 200 empties the mirror and the transcript and closes the popup; otherwise all three are unchanged, and a throw raises the alert |
| Slider.Directory.CancelDeleteAll | AI/src/components/Slider.jsx:149-151 | only closes the delete-all confirmation |
| Slider.Directory.ConversationClick | AI/src/components/Slider.jsx:166-171 | the transcript becomes exactly [{conv.question, conv.answer}] and the sidebar closes |
| Structure.NextTheme | AI/src/components/Structure.jsx:38-40 | the result is "light" or "dark", and it is "dark" exactly when the theme was "light" |
| Structure.NextThemeTwice | AI/src/components/Structure.jsx:38-40 | two toggles are the identity exactly on "light" and "dark" |
| Structure.Shell.constructor | AI/src/components/Structure.jsx:7-9 | `isLight` starts as theme == "light" and the flag starts down |
| Structure.Shell.MountAsWritten | AI/src/components/Structure.jsx:15-20 | in React's effect order the transcript is unchanged by the mount, and storage holds the empty transcript |
| Structure.Shell.Mount | AI/src/components/Structure.jsx:15-20 | the transcript becomes the stored one when "chatHistory" is present, otherwise it is kept; storage then holds it |
| Structure.Shell.SyncTheme | AI/src/components/Structure.jsx:11-13 | `isLight` equals theme == "light" |
| Structure.Shell.Toggle | AI/src/components/Structure.jsx:22-24 | `isActive` is negated, so two toggles restore it |
| Structure.Shell.ToggleTheme | AI/src/components/Structure.jsx:38-40 | the theme becomes `NextTheme` of the old one |
| Structure.Shell.ListItemClick | AI/src/components/Structure.jsx:45-56 | with the flag up nothing changes; otherwise the text is triggered as in `TriggerAnswer`; the flag ends as it began |
| Structure.ReloadAsWritten | AI/src/components/Structure.jsx:15-20 | after a reload with the source's effect order, the transcript is empty for every saved transcript |
| Structure.Reload | AI/src/components/Structure.jsx:15-20 | after a reload with the intended mount, the transcript is exactly the saved one |
| Structure.Exchange | AI/src/components/Content.jsx:54-92 | one whole exchange on an empty page (ask, reply, reveal to the end) leaves exactly [{question, reply without `*`}]; the captured question is the one asked |
| Structure.StaleTickAfterNewChat | AI/src/components/Slider.jsx:31-47 | after "new chat" and a new question, a leftover tick rewrites the new pending entry as {old question, first revealed character} |

## Left out

- Network transport:
  - URLs, credentials and the reply shape `candidates[0].content.parts[0].text` are not modelled;
  - every call is an outcome parameter;
  - `handleLogout` and the initial dashboard check are authentication and navigation.
- Storage format: `JSON.stringify`/`JSON.parse` are not modelled. Storage holds transcripts directly.
- Timing:
  - the 3 ms cadence, the 1.5 s notice timeout, the 200 ms `isVisible` delay and the scroll timeouts are not modelled;
  - only the order of the steps is kept.
- Host calls: the clipboard write, `scrollToBottom`, `navigate`, `window.location.reload` and `console` are not modelled. An alert is a recorded message.
- Unreachable branches:
  - the `catch` branch of `handleNewChat` is not modelled, and neither is its `navigate`/reload fallback;
  - Shell assumes `contentRef.current` is set.
- Markup and styling are not modelled: theme colours, the "Example" italics, the spinner and the settings popup.
- React scheduling:
  - each handler, interval tick and effect is one atomic step;
  - updater functions and nested `setState` calls are applied at once;
  - the persistence effect is the explicit step `Session.Persist`, which callers run after each change.
- Text:
  - characters are Unicode scalar values, while JavaScript's `substring` and `length` count UTF-16 code units;
  - a character outside the BMP is revealed in one tick rather than two.
- Content.Session.Settle: requires that no reveal interval is running. `Answer` has no guard against a second interval: a second reply starts one beside the first, and interleaved intervals are not modelled.
- Content.Session.Copy: does not take or record the copied text, because the clipboard is a host call.

## Findings

| source | as written | input that shows it | evidently intended | confidence | as-written member | corrected member |
|---|---|---|---|---|---|---|
| AI/src/components/Structure.jsx:15-20 | On the first render React runs the child's passive effects before the parent's. So Content's persistence effect (AI/src/components/Content.jsx:25-27) first writes the still-empty transcript under "chatHistory". The restore effect then reads back `[]`. | Reload the page while storage holds `[{question:"Q", answer:"A"}]`. The transcript comes up `[]`, and storage is overwritten with `[]`. | On start, the transcript becomes the saved one, so restore(store(t)) = t across a reload. | not executed; high (it follows from React's child-before-parent effect order) | Structure.ReloadAsWritten | Structure.Reload |
