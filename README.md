# OpenAI_S2S core, modelled in Dafny

This project models three parts of the voice-agent demo repository:

- **The README commit table** (`update_readme.py`). The output of `git log` is parsed into commits. Their subjects and authors are escaped for Markdown table cells. The table block is built with the heading `## 📝 Recent Commits` between the comment markers `<!-- COMMITS:START -->` and `<!-- COMMITS:END -->`. That block then takes the place of the old one from its START marker on, so the old heading stays in front of it and every run adds one more heading. When there is no block, it is appended.
- **The WebRTC page's event helpers** (`voice-agent-webrtc/src/main.ts`). These are:
  - `summarizeItem` and `normalizeError`;
  - the overload test in `log` and the coloured line it appends;
  - the transport handlers that drop `.delta` events, and the 160-character previews;
  - the page state: one session at a time, and the log element's HTML.
- **The websocket client's `AudioPlayer`** (`voice-agent-websocket/player.py`). It has a 64-slot playback queue that drops its oldest chunk when full, mute and unmute flags, a guarded start, a stop that posts an end-of-stream sentinel, and the playback loop.

Modules:

| file | module | models |
|---|---|---|
| `wrappers.dfy` | `Wrappers` | `Option`, `Result` |
| `strings.dfy` | `Strings` | Python `find`/`in`, `split` on one character, `join`, `rstrip` and its whitespace class |
| `commit_log.dfy` | `CommitLog` | `get_commit_log` |
| `commit_table.dfy` | `CommitTable` | `esc_md_cell`, `build_table` |
| `readme_section.dfy` | `ReadmeSection` | `replace_section`, `update_readme` |
| `js_value.dfy` | `JsValue` | JavaScript values, truthiness, `\|\|`, `??`, `?.`, `String()`, `.slice` |
| `webrtc_log.dfy` | `WebrtcLog` | `summarizeItem`, `normalizeError`, `log` and the event handlers |
| `webrtc_page.dfy` | `WebrtcPage` | the session variable, the log element, and the start and stop buttons |
| `audio_player.dfy` | `AudioPlayer` | `AudioPlayer` |

Inputs the program gets from its surroundings are parameters:

- git's output; the `GITHUB_REPOSITORY` value; the formatted UTC time stamp;
- the README text;
- the JSON body of the credential response; the outcome of the SDK's `connect`;
- `JSON.stringify`, as a function that returns `None` when the call throws or yields `undefined`.

The audio device is modelled by the trace of calls the player makes on it.

Two points of the code's behaviour that are easy to misread:

- After a failed credential request or connect, nothing catches the rejection, so `session` stays set. The start button then does nothing until stop is pressed. `WebrtcPage.Page.Start` states this.
- The page keeps no conversation history of its own: it only logs `history_added` and `history_updated`.

## Model

| member | source | states |
|---|---|---|
| Strings.Find | update_readme.py:53-54 | the result is -1 or the index of an occurrence, with no occurrence before it (`str.find`) |
| Strings.FindIs | update_readme.py:53-54 | the first occurrence is exactly what `find` returns |
| Strings.FirstAtFrame | update_readme.py:53-54 | a first occurrence inside a block stays first when marker-free text is put before it |
| Strings.FirstAfter | update_readme.py:53-54 | a marker whose first character does not recur in it is found right after text that does not hold it |
| Strings.Split | update_readme.py:15 | `split` on one character yields at least one part, and no part holds the separator |
| Strings.JoinSplit | update_readme.py:15 | joining the parts of a split with the separator gives the original string |
| Strings.SplitJoin | update_readme.py:18 | splitting a join of separator-free parts gives the parts back |
| Strings.RStrip | update_readme.py:60-61 | `rstrip` leaves a prefix, removes only whitespace, and leaves no trailing whitespace |
| CommitLog.NonBlank | update_readme.py:15 | the kept records are exactly the non-blank ones, and there are no more of them than the input parts |
| CommitLog.NonBlankConcat | update_readme.py:15 | the filter keeps records in input order |
| CommitLog.Records | update_readme.py:15 | every kept record is non-blank and holds no record separator |
| CommitLog.CommitOf | update_readme.py:18-22 | a record yields a commit exactly when it splits into 4 fields, and the commit is those fields |
| CommitLog.CommitOfVerbatim | update_readme.py:18-22 | a record yields commit `c` exactly when it is `c`'s fields joined by US with no US inside them: nothing is trimmed |
| CommitLog.ParseRecords | update_readme.py:16-23 | there are no more commits than records |
| CommitLog.ParseLog | update_readme.py:15-23 | there are no more commits than non-blank records |
| CommitLog.ParseRecordsConcat | update_readme.py:16-22 | parsing record lists concatenates their commits, so order is kept |
| CommitLog.ParseRecordsSound | update_readme.py:17-22 | every returned commit comes from some record |
| CommitLog.ParseRecordsComplete | update_readme.py:17-22 | every four-field record contributes its commit |
| CommitLog.ParseRecordsExact | update_readme.py:17-22 | when every record has four fields, commit `k` is record `k` |
| CommitLog.RecordsOfLog | update_readme.py:15-23 | blank records are dropped, every non-blank record is kept, and there are no more commits than records |
| CommitLog.GetCommitLog | update_readme.py:12-23 | the append loop returns the commits of the parsed output |
| CommitLog.GitOutput | update_readme.py:13-14 | the text git prints for a list of commits ends with a record separator |
| CommitLog.PrintedRecord | update_readme.py:13-22 | a printable commit's record, alone or behind git's newline, is one non-blank record that parses back to the commit (with its hash newline-prefixed in the second case) |
| CommitLog.FirstRecordParsed | update_readme.py:13-22 | git's output for one commit parses back to exactly that commit |
| CommitLog.LaterRecordParsed | update_readme.py:13-22 | each further record git prints parses to the commit with `\n` in front of its hash, as written, and to the commit itself once stripped |
| CommitLog.GitOutputParsed | update_readme.py:13-22 | as written, git's output for `n` printable commits parses to `n` commits: the first verbatim, every later one with `\n` in front of its hash |
| CommitLog.LStripNewlines | update_readme.py:15 | corrected: stripping leaves a tail of the record, removes only newlines, and leaves no newline in front |
| CommitLog.StripAll | update_readme.py:15 | corrected: every record is stripped, and there are as many records as before |
| CommitLog.ParseLogFixed | update_readme.py:15-23 | corrected: there are no more commits than non-blank records |
| CommitLog.GitOutputParsedFixed | update_readme.py:13-22 | corrected: with records stripped, git's output parses back to exactly the commits printed, in order |
| CommitTable.EscMdCellConcat | update_readme.py:25-28 | the escape works character by character |
| CommitTable.HtmlEscape | update_readme.py:26 | `html.escape` with `quote=False` leaves no `<` or `>` |
| CommitTable.ReplaceChar | update_readme.py:26-27 | after `str.replace` of a character, none of it is left when the replacement does not hold it |
| CommitTable.EscMdCell | update_readme.py:25-28 | the escaped cell holds no `<` or `>` |
| CommitTable.EscMdCellChar | update_readme.py:25-28 | on one character the five replacements give the one-pass escape `& < > \| backtick` |
| CommitTable.EscMdCellOnePass | update_readme.py:25-28 | the chain of replacements equals an independent one-pass escape |
| CommitTable.EscMdCellSafe | update_readme.py:25-28 | the output holds no `<` or `>`, and every `\|` and backtick follows a backslash |
| CommitTable.EscMdCellPlain | update_readme.py:25-28 | the escape is the identity on text without `& < > \|` or backticks |
| CommitTable.EscMdCellRoundTrip | update_readme.py:25-28 | reading the escaped cell back gives the original text |
| CommitTable.EscMdCellNewline | update_readme.py:25-28 | the escape neither adds nor removes a newline |
| CommitTable.HashCellForm | update_readme.py:40-41 | the hash cell is a link to the commit URL exactly when a repository is named, else a bare code span |
| CommitTable.HashCellNoAngle | update_readme.py:40-41 | the hash cell adds no `<` to what the hash and the repository hold |
| CommitTable.HashCellNewline | update_readme.py:40-41 | the hash cell holds a newline exactly when the hash or the repository does |
| CommitTable.Rows | update_readme.py:39-44 | one row per commit |
| CommitTable.RowNewline | update_readme.py:39-44 | a row holds a newline exactly when one of the commit's four fields or the repository does |
| CommitTable.NewlineHashBreaksRow | update_readme.py:41-44 | as written, a hash with `\n` in front splits its Markdown table row in two |
| CommitTable.GitRowsBroken | update_readme.py:13-44 | as written, for git's output of printable commits, the row of every commit after the first holds a newline, so the table breaks |
| CommitTable.GitRowsOneLine | update_readme.py:13-44 | corrected: with records stripped, one-line commits give exactly their own rows, each on one line |
| CommitTable.RowsAt | update_readme.py:39-44 | row `k` is the row of commit `k` |
| CommitTable.BuildTable | update_readme.py:30-50 | the appends and the newline join build the block text |
| CommitTable.TableShape | update_readme.py:33-50 | 6 header lines, one row per commit in order, then 4 trailer lines; heading first, START third, END last |
| CommitTable.TableTextLayout | update_readme.py:33-50 | the block is heading, blank line, START marker, the middle, END marker |
| CommitTable.MiddleNoAngle | update_readme.py:36-48 | between the markers there is no `<` unless a hash, a date, the repository or the time stamp holds one |
| CommitTable.BlockStart | update_readme.py:33-35 | the first START marker in a block comes right after the heading |
| CommitTable.BlockEnd | update_readme.py:46-49 | with clean fields the first END marker in a block is its last line |
| ReadmeSection.SectionMarkers | update_readme.py:53-55 | in a README holding a block, `find` locates that block's two markers, END after START |
| ReadmeSection.ReplaceSectionKeepsOldHeading | update_readme.py:55-58 | as written, the text before START (holding the old heading) is kept, and the new block follows it |
| ReadmeSection.ReplaceSectionMarked | update_readme.py:52-58 | as written, in any README whose first START comes before its first END, exactly the text from START to END is replaced by the block, and everything in front of START stays |
| ReadmeSection.ReplaceSectionRepeatsHeading | update_readme.py:55-58 | as written, re-running puts the heading twice in a row and the README grows by one heading per run |
| ReadmeSection.ReplaceSectionAppends | update_readme.py:55-61 | without both markers in order, both fallback branches append the block after the right-stripped text |
| ReadmeSection.AppendedUnmarked | update_readme.py:59-61 | an append adds no marker in front of the block |
| ReadmeSection.SecondRunRepeatsHeading | update_readme.py:52-61 | as written, a first run appends a block, and a second run leaves that block's heading in front of the new block |
| ReadmeSection.ReplaceSectionFixedRefreshes | update_readme.py:52-58 | corrected: the old block, heading included, is replaced, and the text around it is kept verbatim |
| ReadmeSection.ReplaceSectionFixedIdempotent | update_readme.py:52-58 | corrected: refreshing a section with the block it holds changes nothing |
| ReadmeSection.SecondRunFixedReplaces | update_readme.py:52-61 | corrected: after an append, a later run replaces just the appended block |
| ReadmeSection.ReplaceSection | update_readme.py:52-61 | the new block occurs in the result, in every branch |
| ReadmeSection.ReplaceSectionFixed | update_readme.py:52-61 | corrected: the new block occurs in the result, in every branch |
| ReadmeSection.UpdateReadme | update_readme.py:63-71 | the README is written only with text that differs from what was read |
| ReadmeSection.LeadUnmarked | update_readme.py:33-35 | the heading and blank line that a run leaves in front of a block add no marker |
| ReadmeSection.BlockChars | update_readme.py:33-35 | every block starts with the heading, and its START marker follows the heading and one blank line |
| ReadmeSection.UpdateReadmeAlwaysWrites | update_readme.py:52-71 | as written, refreshing a README that holds a block always writes: the old heading stays and the new block follows it |
| ReadmeSection.AfterRun | update_readme.py:63-71 | after a run the README is either as before or what `update_readme` wrote |
| ReadmeSection.AfterRunWrites | update_readme.py:68-71 | when a run writes, the README afterwards is what it wrote |
| ReadmeSection.IterateInserts | update_readme.py:63-71 | a step that adds a fixed piece in front of a fixed tail, run `n` times, adds `n` copies of it |
| ReadmeSection.RunAddsLead | update_readme.py:52-71 | as written, one run on `q + block + s` gives `q + heading + block + s`, and `q + heading` is still marker-free |
| ReadmeSection.UpdateReadmeRunsGrow | update_readme.py:52-71 | as written, `n` runs with the same git output and time stamp leave `n` extra headings in front of the block |
| ReadmeSection.UpdateReadmeRunsLength | update_readme.py:52-71 | as written, every run makes the README longer by the heading and its blank line |
| ReadmeSection.UpdateReadmeFixed | update_readme.py:63-71 | corrected: the README is written only with text that differs from what was read |
| ReadmeSection.UpdateReadmeSettles | update_readme.py:63-71 | corrected: the new block replaces the old one, heading included, and a second run with the same inputs writes nothing |
| JsValue.Or | voice-agent-webrtc/src/main.ts:170-171 | `a \|\| b` is `a` when `a` is truthy and `b` otherwise, so it is truthy when either one is |
| JsValue.Coalesce | voice-agent-webrtc/src/main.ts:85 | `a ?? b` is `b` exactly when `a` is `null` or `undefined` |
| JsValue.Get | voice-agent-webrtc/src/main.ts:170-174 | property access gives an object's own field, else `undefined` |
| JsValue.NatToDecimalValue | voice-agent-webrtc/src/main.ts:85 | the digits `String(n)` prints read back as `n` |
| JsValue.Slice | voice-agent-webrtc/src/main.ts:173-174 | `.slice(0, n)` is a prefix of at most `n` elements, and all of them when there are fewer |
| WebrtcLog.TruthyTexts | voice-agent-webrtc/src/main.ts:173 | the filtered texts are exactly the truthy `c?.text` values, no more of them than parts |
| WebrtcLog.TruthyTextsConcat | voice-agent-webrtc/src/main.ts:173 | the filter keeps texts in order and with their repeats |
| WebrtcLog.TruthyTextsOne | voice-agent-webrtc/src/main.ts:173 | one part gives its text exactly when the text is truthy |
| WebrtcLog.SliceValue | voice-agent-webrtc/src/main.ts:174 | `.slice` works on strings and arrays and throws on anything else |
| WebrtcLog.SummaryText | voice-agent-webrtc/src/main.ts:172-174 | the text throws exactly when there is no content array and `text` is truthy but neither a string nor an array; otherwise it is at most 200 characters (or elements) |
| WebrtcLog.SummarizeItem | voice-agent-webrtc/src/main.ts:167-177 | a falsy item gives `{note: 'empty item'}`; otherwise `id` and `type` follow their fallback chains; `text` is present only when truthy; the error is the TypeError of a non-sliceable `text` |
| WebrtcLog.SummaryOfContent | voice-agent-webrtc/src/main.ts:172-176 | with a content array, the text is the first 200 characters of the space-joined truthy texts (all of them when there are fewer), present exactly when the join is not empty |
| WebrtcLog.ContentTextEmptyIff | voice-agent-webrtc/src/main.ts:173 | with plain texts, the join is empty exactly when no part has a non-empty text |
| WebrtcLog.SummaryTextPresent | voice-agent-webrtc/src/main.ts:172-176 | with plain texts, `text` is present exactly when some part has a non-empty text |
| WebrtcLog.SummaryOfText | voice-agent-webrtc/src/main.ts:174-176 | without a content array, a string `text` is kept up to 200 characters, and only when it is not empty |
| WebrtcLog.SummaryOfFalsyText | voice-agent-webrtc/src/main.ts:174-176 | without a content array, a missing or falsy `text` gives a summary without `text` |
| WebrtcLog.ItemId | voice-agent-webrtc/src/main.ts:170 | the identifier is `item.id` when that is truthy, else `item.item_id` |
| WebrtcLog.ItemType | voice-agent-webrtc/src/main.ts:171 | the kind is `item.type`, else `item.role`, else `'item'`, and is always truthy |
| WebrtcLog.SummaryIdType | voice-agent-webrtc/src/main.ts:170-176 | the summary's `id` and `type` follow those fallback chains |
| WebrtcLog.MessageCode | voice-agent-webrtc/src/main.ts:182 | an object with exactly the keys `message` and `code`: the error's message, and its code, or its name when the code is `null` or `undefined` |
| WebrtcLog.NormalizeError | voice-agent-webrtc/src/main.ts:179-184 | `'unknown error'` for a falsy error; a string unchanged; `{message, code: code ?? name}` when there is a message; otherwise the first 300 characters of the JSON (all of them when there are fewer), or `String(err)` when serializing fails |
| WebrtcLog.NormalizeErrorShape | voice-agent-webrtc/src/main.ts:179-184 | every result is a string, or an object with a truthy message and a `code` key; the string is empty only when the JSON, or `String(err)` when serializing fails, is empty |
| WebrtcLog.NormalizeErrorStable | voice-agent-webrtc/src/main.ts:179-184 | normalizing a string or a message/code result again gives it back |
| WebrtcLog.ParseLogTypeIff | voice-agent-webrtc/src/main.ts:19-20 | an argument names a log type exactly when it is that type's name |
| WebrtcLog.LogArgs | voice-agent-webrtc/src/main.ts:14-25 | the first argument becomes the type only when it names one; otherwise the type is default and nothing is dropped |
| WebrtcLog.ColoredLine | voice-agent-webrtc/src/main.ts:31-37 | the line sits verbatim between the coloured span's opening and closing tags |
| WebrtcLog.LineTextOfStrings | voice-agent-webrtc/src/main.ts:27 | string arguments are printed verbatim and separated by spaces |
| WebrtcLog.RenderedTyped | voice-agent-webrtc/src/main.ts:14-38 | a call that names a type prints the rest of its arguments in that type's colour |
| WebrtcLog.Includes | voice-agent-webrtc/src/main.ts:69 | `.includes` is a substring test on strings, an element test on arrays, and throws otherwise |
| WebrtcLog.OnTransportAny | voice-agent-webrtc/src/main.ts:65-74 | the wildcard handler logs `transport transport <type> <event>` unless the type includes `.delta` |
| WebrtcLog.TransportType | voice-agent-webrtc/src/main.ts:65 | the reported type is `evt.type` when that is truthy, else `'event'` |
| WebrtcLog.TransportDeltaFilter | voice-agent-webrtc/src/main.ts:65-74 | a string type is skipped exactly when it holds `.delta`, and a missing type is logged as `'event'` |
| WebrtcLog.OnTransportEcho | voice-agent-webrtc/src/main.ts:147-152 | the `transport_event` handler logs `[side]` and the type unless the type includes `.delta` |
| WebrtcLog.EventSide | voice-agent-webrtc/src/main.ts:148 | the side is `mode`, else `direction`, else `source`, else `'unknown'`, the first truthy one |
| WebrtcLog.EchoType | voice-agent-webrtc/src/main.ts:149 | the type is `type`, else `event.type`, else `'event'`, the first truthy one |
| WebrtcLog.EchoDeltaFilter | voice-agent-webrtc/src/main.ts:147-152 | a string type is skipped exactly when it holds `.delta`, and a missing type is logged as `'event'` |
| WebrtcLog.Preview | voice-agent-webrtc/src/main.ts:85 | a preview is the first 160 characters of `String(output ?? '')`, or all of them when there are fewer |
| WebrtcLog.PreviewCases | voice-agent-webrtc/src/main.ts:85 | a missing output previews as empty; a string previews as itself, or as its first 160 characters |
| WebrtcLog.HandlerPreviews | voice-agent-webrtc/src/main.ts:84-98 | the `agent_end` and the `agent_tool_end` preview are the same: the first 160 characters of `String(output ?? '')`, or all of them |
| WebrtcLog.OnAgentEnd | voice-agent-webrtc/src/main.ts:84-86 | a session call with an object of exactly `agent` and `preview`: the agent's name and the first 160 characters of `String(output ?? '')`, or all of them |
| WebrtcLog.OnAgentToolEnd | voice-agent-webrtc/src/main.ts:96-98 | a session call with an object of exactly `agent`, `tool` and `outputPreview`: both names and the first 160 characters of `String(output ?? '')`, or all of them |
| WebrtcLog.AgentEndLine | voice-agent-webrtc/src/main.ts:84-86 | the `agent_end` handler appends `agent_end` and its payload in the session colour |
| WebrtcLog.AgentToolEndLine | voice-agent-webrtc/src/main.ts:96-98 | the `agent_tool_end` handler appends `agent_tool_end` and its payload in the session colour |
| WebrtcLog.OnHistoryAdded | voice-agent-webrtc/src/main.ts:119-121 | `history_added` logs the item's summary, or throws its error |
| WebrtcLog.OnAudio | voice-agent-webrtc/src/main.ts:105-108 | `audio` logs `bytes`, which is `e.data.byteLength` unless that is `null` or `undefined` and then 0, and a note exactly when `bytes` is truthy |
| WebrtcLog.OnHistoryUpdated | voice-agent-webrtc/src/main.ts:123-125 | `history_updated` logs the history's length when it is an array, else 0 |
| WebrtcLog.OnToolApprovalRequested | voice-agent-webrtc/src/main.ts:128-133 | `tool_approval_requested` logs the raw item's name, and the approval item's `id` when truthy, else its `name` |
| WebrtcLog.OnGuardrailTripped | voice-agent-webrtc/src/main.ts:135-140 | `guardrail_tripped` logs the agent's name, and the first truthy of `tripwire.tripwire.name` and `tripwire.tripwire_id`, else `'unknown'` |
| WebrtcLog.OnSessionError | voice-agent-webrtc/src/main.ts:142-144 | the handler's call is `log('session', 'session_error', normalizeError(err))`: a string or a message/code payload, `'unknown error'` for a falsy error |
| WebrtcLog.SessionErrorLine | voice-agent-webrtc/src/main.ts:142-144 | the `error` handler appends `session_error` and the normalized error in the session colour |
| WebrtcLog.SessionErrorUnknown | voice-agent-webrtc/src/main.ts:142-144 | a falsy error is logged as `session_error unknown error` in the session colour |
| WebrtcPage.ClientKey | voice-agent-webrtc/src/main.ts:42-47 | a key is returned exactly when the response has a truthy `apiKey` |
| WebrtcPage.Page.constructor | voice-agent-webrtc/src/main.ts:5-7 | the page starts with no session and an empty log |
| WebrtcPage.Page.Log | voice-agent-webrtc/src/main.ts:37-38 | one rendered line is appended to the log HTML |
| WebrtcPage.Page.Start | voice-agent-webrtc/src/main.ts:49-59 | nothing changes while a session exists; otherwise the session is set, and `connected` is logged only after a key and a connect |
| WebrtcPage.Page.Stop | voice-agent-webrtc/src/main.ts:159-164 | nothing changes without a session; otherwise the session is unset and `disconnected` is logged in the session colour |
| WebrtcPage.Page.Deliver | voice-agent-webrtc/src/main.ts:65-74 | a handler's log call is made, and a skip or a thrown error logs nothing |
| WebrtcPage.Page.OnTransport | voice-agent-webrtc/src/main.ts:65-74 | a delta transport event, or one whose type makes `includes` throw, leaves the log unchanged; any other is logged in the transport colour |
| AudioPlayer.EnqueuedWithRoom | voice-agent-websocket/player.py:30 | with room, the chunk is appended and nothing else changes |
| AudioPlayer.EnqueuedWhenFull | voice-agent-websocket/player.py:31-34 | when full, exactly the oldest slot leaves, the length stays 64 and the new chunk is last |
| AudioPlayer.EnqueuedIsLastN | voice-agent-websocket/player.py:28-35 | within the bound, one enqueue keeps the last 64 slots of the old queue followed by the new chunk |
| AudioPlayer.Enqueued | voice-agent-websocket/player.py:28-35 | the new chunk always ends the queue, and a queue within 64 slots stays within them |
| AudioPlayer.EnqueueAllWindow | voice-agent-websocket/player.py:6 | after any run of enqueues the queue holds the most recent 64 slots, oldest first |
| AudioPlayer.PlaybackMuted | voice-agent-websocket/player.py:24 | a muted player writes nothing |
| AudioPlayer.PlaybackWrites | voice-agent-websocket/player.py:25-26 | an unmuted player starts the output and writes each chunk before the sentinel, in order |
| AudioPlayer.PlaybackShape | voice-agent-websocket/player.py:17-26 | the loop makes one start and one write per chunk at most, and never stops the device |
| AudioPlayer.AfterSentinelTail | voice-agent-websocket/player.py:17-26 | the loop leaves a tail of the queue: shorter than the queue when it holds a sentinel, empty when it holds none |
| AudioPlayer.AudioPlayer.constructor | voice-agent-websocket/player.py:4-9 | the player starts empty, stopped, unmuted and without a thread |
| AudioPlayer.AudioPlayer.Start | voice-agent-websocket/player.py:11-15 | a second start while running starts no second thread |
| AudioPlayer.AudioPlayer.Enqueue | voice-agent-websocket/player.py:28-35 | the queue becomes the one-step enqueue of the chunk, within 64 slots |
| AudioPlayer.AudioPlayer.Clear | voice-agent-websocket/player.py:37-40 | the queue is empty and nothing else changes |
| AudioPlayer.AudioPlayer.Mute | voice-agent-websocket/player.py:42-43 | the player is muted and nothing else changes |
| AudioPlayer.AudioPlayer.Unmute | voice-agent-websocket/player.py:45-46 | the player is unmuted and nothing else changes |
| AudioPlayer.AudioPlayer.Stop | voice-agent-websocket/player.py:48-55 | the loop is told to stop, the sentinel is posted only when there is room, and the output is stopped |
| AudioPlayer.AudioPlayer.Step | voice-agent-websocket/player.py:17-26 | one loop pass: leave when not running or on the sentinel; wait on an empty queue; drop a chunk when muted, else start and write it |
| AudioPlayer.AudioPlayer.Drain | voice-agent-websocket/player.py:17-26 | the loop over the queued slots plays exactly the chunks before the first sentinel and leaves the slots after it |

## Left out

- The git call, the environment read, `datetime.now`, and the README file read and write (update_readme.py:9-14, 31, 45, 63-71): their values are parameters.
- The JSON that `JSON.stringify` produces is a parameter. A stringify call that throws inside `log` is modelled like one that yields `undefined`.
- DOM updates other than the log element's HTML are left out: the scroll position, `console.log`, and the save button's Blob/URL download (voice-agent-webrtc/src/main.ts:28, 39, 186-200).
- The SDK objects are left out: the `RealtimeAgent` and `RealtimeSession` constructors, event registration, `connect` and `close`. The session is a record of its configuration, and the connect outcome is a parameter.
- These session handlers are not modelled: `agent_start`, `agent_handoff`, `agent_tool_start`, `audio_start`, `audio_stopped` and `audio_interrupted` (voice-agent-webrtc/src/main.ts:80-82, 88-94, 101-103, 110-116). Each only reads fields with `?.` (`agent?.name`, `from?.name`, `to?.name`, `tool?.name`, `args`) and logs them in an object. Their reads are the ones `WebrtcLog.OnAgentEnd` and `WebrtcLog.OnAgentToolEnd` model.
- JavaScript numbers are modelled as integers, so `NaN`, fractions and `-0` are missing.
- Property access sees own fields only, so prototype properties such as `length` are missing. An audio buffer is an object whose `byteLength` is an own field.
- String lengths count Unicode scalar values, not UTF-16 code units. So the 160-, 200- and 300-character cuts may differ from the browser's on text outside the Basic Multilingual Plane.
- The player's thread, `queue.Queue` locking and blocking, the 0.1 s `get` timeout and the 1 s `join` timeout are not modelled. `Step` and `Drain` run the loop body in sequence with the other operations. An empty queue ends `Drain`; the real thread would keep waiting there.
- AudioPlayer.AudioPlayer.Stop: the loop that would still drain the queue during `join` is not modelled, and neither is `join` itself.
- WebrtcPage.Page.Start: the start handler is `async` (voice-agent-webrtc/src/main.ts:49). The model runs it as one step, so the interleavings at the awaits (main.ts:154-155) are lost. There, stop can unset the session before `connect` is called on it, `connected` can be logged after `disconnected`, and a second start can build a second session while the first is still connecting.
- WebrtcPage.Page.Log: `logEl.innerHTML += line` (voice-agent-webrtc/src/main.ts:38) makes the browser re-parse and re-serialise the element's whole HTML. The model appends the text as it is. So it misses that `&`, `<` and `>` in JSON text do not read back verbatim, and that malformed markup is normalised.
- Strings.IsPySpace: `str.isspace` is modelled by its list of code points, not by Unicode's general categories.

## Findings

| source | as written | input that shows it | evidently intended | confidence | as-written member | corrected member |
|---|---|---|---|---|---|---|
| update_readme.py:55-58 | the kept prefix `readme[:start]` ends with the old block's heading and blank line, and the new block starts with the heading again | a README made by an earlier run, `"intro\n\n" + block + "\n"`: the refreshed README holds `## 📝 Recent Commits` twice in a row, one more copy per run | the old block, heading included, is replaced | not executed | ReadmeSection.ReplaceSectionRepeatsHeading | ReadmeSection.ReplaceSectionFixedRefreshes |
| update_readme.py:13-44 | `git log --pretty=format:` puts a newline between records, and the records split on the record separator are not stripped, so every hash after the first starts with `\n`; the hash cell carries it into the row | two printable commits: the second row holds a newline and the Markdown table is broken in two | each record is stripped of the newline before it is split into fields | not executed | CommitTable.GitRowsBroken | CommitTable.GitRowsOneLine |
