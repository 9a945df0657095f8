# teachgpt core, modelled in Dafny

teachgpt turns a question into an animated Manim video. A web service
(`text_api.py`) accepts a request and stores a pending job. It takes a chat
client from a round-robin pool, asks the Claude web API for Manim code
(`claude_api_CS.py`), and hands the reply to a bridge that extracts the
code and runs the renderer (`manim_exec.py`). Finally it records the job as
completed or failed. Clients poll the job by id; jobs older than one hour
are evicted when a status is requested.

The model covers three parts of that pipeline:

- `TextApi` (text_api.dfy)
  - The job record and the job store: a class holding a `map` from job id
    to `Job`, with one-hour eviction.
  - The client pool: a class with a cursor and round-robin hand-out.
  - Job creation, the status lookup, and the background step that records
    a job's terminal state.
  - Time is an integer clock in microseconds. The job id, the chat
    service's reply and the renderer's outcome are inputs.
- `ClaudeApi` (claude_api.dfy)
  - The MIME type of an attachment, from its POSIX `splitext` extension.
  - The request headers: six defaults, updated with the extra headers.
  - The decoder of the streamed reply, as a loop proved against a
    specification function, with lemmas about that function.
  - The status-code checks of `delete_conversation` and `rename_chat`.
  - `json.loads` is a function parameter that classifies each payload as
    malformed, an object, or another JSON value.
- `ManimExec` (manim_exec.dfy)
  - Extraction of the first ```` ```python ```` block, proved against a
    declarative description of the leftmost, non-greedy regex match.
  - Name sanitising (`\W+` to `_`, then stripping `_`) and truncation to 20
    characters.
  - The exit-status classification.
  - The run itself: write the script, run the renderer, remove the script.
    This is a method over a `Host` class whose state is a file map and the
    list of renderer invocations.
- `Strings` and `Wrappers` (strings.dfy, wrappers.dfy): `startswith`,
  slicing, `strip`, and the Option and Result types.

In three places the code does something other than what one would
expect of such a service. The model follows the code in each:

- One would expect the result filename to be the renderer's `-o` argument
  followed by `.mp4`. The code builds it from the visualisation name as
  given (text_api.py:119), while the `-o` argument is `name[:20]` of the
  sanitised name (manim_exec.py:15, 28). `TextApi.FilenameMatchesRenderIff`
  states exactly when the two agree. `TextApi.SpacedTitleFilename` shows that a
  title such as "My Cool Viz!!" is rendered as `My_Cool_Viz` but recorded as
  `My Cool Viz!!.mp4`.
- One would expect sanitising to leave no consecutive separators. That
  holds only for names without `_` of their own
  (`ManimExec.SanitizeNoDoubleUnderscore`); `"a_!b"` sanitises to `"a__b"`
  (`ManimExec.SanitizeKeepsDoubleUnderscore`).
- One would expect a failed job always to carry a non-empty error message.
  A failed render always does, but an exception whose message is empty
  leaves an empty one (`TextApi.FailedErrorMessages`).

## Model

| member | source | states |
|---|---|---|
| TextApi.NewJob | text_api.py:38-43 | a new job is pending, has neither result nor error, and was created at the given time |
| TextApi.Evict | text_api.py:51-59 | the jobs kept are exactly those at most one hour old, and each is unchanged |
| TextApi.JobStore.constructor | text_api.py:46-49 | the store starts empty |
| TextApi.JobStore.CleanupOldJobs | text_api.py:51-59 | deleting the collected stale ids one by one leaves exactly `Evict` of the old store, and keeps every job well-formed |
| TextApi.EvictBoundary | text_api.py:56 | a job exactly one hour old survives; one a microsecond older is evicted |
| TextApi.EvictIdempotent | text_api.py:51-59 | a second cleanup at the same time removes nothing more |
| TextApi.ClientPool.constructor | text_api.py:65-70 | the pool holds the given clients, its size is their number, and the cursor starts at 0 |
| TextApi.ClientPool.GetClient | text_api.py:72-76 | hands out the client under the cursor and advances the cursor modulo the pool size; the cursor stays below the size and the n-th hand-out is client n mod size; an empty pool raises IndexError (None) |
| TextApi.RoundRobinWindow | text_api.py:72-76 | among any pool-size consecutive hand-outs every client appears |
| TextApi.VisualizationName | text_api.py:100 | a non-empty name is used as given; otherwise the first 50 characters of the query; never longer than 50 when the request is valid |
| TextApi.GenerateVisualization | text_api.py:131-143 | stores a new pending job under the fresh id, leaves every other job as it was, and answers the id with status pending |
| TextApi.Lookup | text_api.py:151-160 | 404 exactly when the id is absent; otherwise the job's status, result and error |
| TextApi.GetJobStatus | text_api.py:145-160 | evicts stale jobs first, then answers the lookup in the evicted store; in a well-formed store a completed job answers with a result and a failed job with an error |
| TextApi.QueryNotFoundIff | text_api.py:147-160 | a query answers 404 exactly for an unknown id or a job older than one hour, and otherwise returns that job's fields |
| TextApi.SubmitThenQueryIsPending | text_api.py:131-160 | a job queried within the hour of its submission is pending, with no result and no error |
| TextApi.Settle | text_api.py:115-128 | the job becomes completed exactly on a successful render, with result `{success: true, filename: name + ".mp4"}` and the error untouched; otherwise it becomes failed with the message as error and the result untouched; it is never pending again and stays well-formed |
| TextApi.ResultFilename | text_api.py:119 | the recorded filename is the visualisation name as given, followed by `.mp4` |
| TextApi.Outcome | text_api.py:94-128 | an empty pool gives the IndexError message; a failed chat request gives its own exception message; otherwise the message is the bridge's; a render result is recorded exactly when the bridge returned, and success exactly when it returned `(True, message)` |
| TextApi.RunPipeline | text_api.py:95-113 | takes one client from the pool (round robin) and ends with `Outcome`; the renderer runs once, on the reply's code under the output name made from the visualisation name, exactly when a client was available and the reply holds a code block, and not at all otherwise; the host's files are unchanged |
| TextApi.ProcessVisualization | text_api.py:94-128 | a present job is replaced by `Settle` of itself, the outcome and `VisualizationName(params)`, and every other job is unchanged; a missing id escapes as KeyError and leaves the store unchanged; the one renderer run uses the output name made from `VisualizationName(params)`; the host's files are unchanged |
| TextApi.SubmitRenderQuery | text_api.py:115-160 | submit, successful render, then query within the hour answers completed with the file named after the visualisation name |
| TextApi.SettleTerminal | text_api.py:115-128 | a settled job is completed or failed, and settling it again with the same outcome changes nothing |
| TextApi.FailedErrorMessages | text_api.py:120-128 | a failed render leaves a non-empty error; an exception with an empty message leaves an empty error |
| TextApi.FilenameMatchesRenderIff | text_api.py:119 | the recorded filename equals the renderer's `-o` argument followed by `.mp4` exactly when the visualisation name is already safe and at most 20 characters long |
| TextApi.SpacedTitleFilename | text_api.py:119 | a title of space-separated words followed by punctuation is rendered as the words joined by `_` but recorded under the title itself |
| ClaudeApi.Extension | claude_api_CS.py:49 | the POSIX `splitext` extension is non-empty exactly when the last path component has a `.` with a character other than `.` before it, and then it is the suffix of the path from that last `.` |
| ClaudeApi.ExtensionOfStemAndExt | claude_api_CS.py:49 | the extension of `stem.ext` is `.ext` when the stem's last character is neither `.` nor `/` and `ext` holds neither `.` nor `/` |
| ClaudeApi.UpperOfLower | claude_api_CS.py:49-52 | upper-casing the lower-cased extension is upper-casing it |
| ClaudeApi.MemberNamed | claude_api_CS.py:51-52 | `ContentType[key]` finds the member whose name is `key`, and nothing exactly when no member has that name |
| ClaudeApi.ExtensionKey | claude_api_CS.py:49-52 | the key is empty when there is no extension, and otherwise the upper-cased extension without its dot; it holds neither `.` nor `/` |
| ClaudeApi.GetContentType | claude_api_CS.py:47-54 | the result is one of the four enumeration values; PDF, TXT and CSV each exactly for their extension key, octet-stream for every other key |
| ClaudeApi.ContentTypeOfStemAndExt | claude_api_CS.py:47-54 | `stem.ext` gets the type its extension names, in any letter case |
| ClaudeApi.ContentTypeWithoutDot | claude_api_CS.py:47-54 | a path without `.` gets octet-stream |
| ClaudeApi.ContentTypeOfDotfile | claude_api_CS.py:47-54 | a dotfile such as `dir/.csv` has no extension and gets octet-stream |
| ClaudeApi.DefaultHeaders | claude_api_CS.py:35-42 | exactly the six default header names, with the client's cookie and the fixed user agent |
| ClaudeApi.GetHeaders | claude_api_CS.py:34-45 | the names are the defaults plus the extra ones; an extra header replaces the default of the same name, and the other defaults stay |
| ClaudeApi.PayloadEffect | claude_api_CS.py:103-111 | a parsed payload appends its completion exactly when it is an object with `type` "completion" and a `completion` field; it raises TypeError for a non-object and KeyError for a missing `type` or for a completion event without `completion`; a malformed payload or another event type is skipped |
| ClaudeApi.LineEffectOf | claude_api_CS.py:98-104 | a line whose `strip()` (only whitespace outside it) starts with `data: ` is parsed from the character after the marker; every other line, the empty one included, is skipped |
| ClaudeApi.Join | claude_api_CS.py:112 | joining fails exactly when some collected completion is not a string, and then with a TypeError |
| ClaudeApi.Collect | claude_api_CS.py:96-107 | when no line raises, one completion is collected per completion event line |
| ClaudeApi.CollectRaisesFirst | claude_api_CS.py:96-111 | collecting the completions fails exactly when some line raises, and then with the error of the first line that raises |
| ClaudeApi.ProcessStreamResponse | claude_api_CS.py:95-112 | the loop returns exactly `DecodeStream` of the lines: the joined completions, or the first error raised |
| ClaudeApi.CollectFailureSticks | claude_api_CS.py:103-111 | once a line raises, later lines change nothing |
| ClaudeApi.CollectAppend | claude_api_CS.py:96-107 | collecting a stream in two pieces is collecting each and concatenating |
| ClaudeApi.JoinAppend | claude_api_CS.py:112 | joining a concatenation is concatenating the joins |
| ClaudeApi.DecodeConcat | claude_api_CS.py:95-112 | decoding two pieces and concatenating the texts is decoding the whole stream |
| ClaudeApi.SkippedLineIrrelevant | claude_api_CS.py:98-111 | removing an empty, non-data, malformed or other-event line leaves the result unchanged |
| ClaudeApi.DecodeStep | claude_api_CS.py:97-112 | one more line keeps success exactly when the line is not bad, and then appends its contribution |
| ClaudeApi.DecodeIsContributions | claude_api_CS.py:95-112 | decoding succeeds exactly when no line is bad, and then returns the in-order concatenation of every completion event's text (`""` for an empty stream) |
| ClaudeApi.DataLinePayload | claude_api_CS.py:100-104 | a line `data: ` + payload, where the payload is non-empty and ends in a non-whitespace character, is parsed from its seventh character, i.e. the payload itself |
| ClaudeApi.MarkerWithoutSpaceSkipped | claude_api_CS.py:101-102 | a line starting `data:` without the space is skipped |
| ClaudeApi.CompletionLine | claude_api_CS.py:100-107 | a completion event line contributes its completion text and is not bad |
| ClaudeApi.DecodeAppendCompletion | claude_api_CS.py:105-107 | a completion line after a decoded prefix appends its text |
| ClaudeApi.TwoCompletionEvents | claude_api_CS.py:95-112 | two completion events around an empty line decode to their texts joined |
| ClaudeApi.DeleteConversationSucceeded | claude_api_CS.py:122 | success exactly for status 204 |
| ClaudeApi.RenameChatSucceeded | claude_api_CS.py:192 | success exactly for status 200 |
| Strings.Strip | claude_api_CS.py:100 | `strip`: the result is a slice of the input whose removed ends all satisfy the predicate and whose own ends do not |
| Strings.Take | text_api.py:100 | `s[:n]`: a prefix of `s`, of length `n` unless `s` is shorter |
| ManimExec.ExtractCode | manim_exec.py:8-12 | `re.search` fails exactly when no opening fence is followed by a closing fence that starts after it; otherwise the code is the body of the leftmost, shortest match |
| ManimExec.ExtractIsFirstShortestFence | manim_exec.py:8-12 | the code is the body of the leftmost, shortest match: the text between the first opening fence and the first closing fence after it |
| ManimExec.ExtractLeadingBlock | manim_exec.py:8-12 | a reply opening with a fenced block whose body has no newline yields that body, whatever follows |
| ManimExec.ExtractSampleBlock | manim_exec.py:8-12 | the sample block ```` ```python\nprint(1)\n``` ```` yields `print(1)` |
| ManimExec.ExtractRejectsPromptFormat | text_api.py:228-230 | the prompt's output-format block with an info string after `python` is never matched |
| ManimExec.SubNonWord | manim_exec.py:15 | `re.sub(r'\W+', '_', s)` holds only word characters and is no longer than `s` |
| ManimExec.SubNonWordSpacedWords | manim_exec.py:15 | space-separated words followed by punctuation become the words joined by `_`, plus one `_` |
| ManimExec.Sanitize | manim_exec.py:15 | the sanitised name holds only word characters, neither starts nor ends with `_`, and is no longer than the name |
| ManimExec.SanitizeFixedPoints | manim_exec.py:15 | sanitising leaves a name unchanged exactly when it is already safe |
| ManimExec.SanitizeIdempotent | manim_exec.py:15 | sanitising twice is sanitising once |
| ManimExec.SanitizeKeepsLettersAndDigits | manim_exec.py:15 | sanitising keeps every letter and digit of the name, in order |
| ManimExec.SanitizeNoDoubleUnderscore | manim_exec.py:15 | a name without `_` sanitises to one with no two adjacent `_` |
| ManimExec.SanitizeKeepsDoubleUnderscore | manim_exec.py:15 | `"a_!b"` sanitises to `"a__b"` |
| ManimExec.SanitizeSpacedWords | manim_exec.py:15 | "My Cool Viz!!"-style names sanitise to the words joined by `_` |
| ManimExec.OutputName | manim_exec.py:28 | the renderer's output name is the first 20 characters of the sanitised name, or all of it when it is shorter; only word characters |
| ManimExec.RenderResult | manim_exec.py:23-34 | the renderer returns exactly when it exited, with its classified exit status; otherwise its exception propagates with its own message |
| ManimExec.Classify | manim_exec.py:31-34 | success exactly for exit status 0, with stdout followed by stderr; otherwise `Error: `, stdout, a newline and stderr |
| ManimExec.RunResultOf | manim_exec.py:8-34 | no code gives `(False, "No Python code found")`; success exactly when there is code and the renderer exited with status 0; an exception exactly when there is code and the renderer raised, carrying the renderer's own message |
| ManimExec.RunMessages | manim_exec.py:31-34 | status 0 gives `(True, stdout + stderr)`; any other status gives `(False, "Error: " + stdout + "\n" + stderr)` |
| ManimExec.RunFailureMessageNonEmpty | manim_exec.py:9-34 | every `(False, message)` carries a non-empty message |
| ManimExec.RunManimCode | manim_exec.py:6-38 | returns `RunResultOf`; without code nothing is written or run; otherwise the renderer runs once on a script holding exactly the extracted code, named `Scene` and the 20-character output name; the file map, which tracks only the temporary script and not the renderer's video or media directory, is as before on every path |
| ManimExec.WriteScript | manim_exec.py:17-19 | the script path now holds the code |
| ManimExec.RunRenderer | manim_exec.py:26-34 | records one renderer invocation on the script's current contents and classifies its exit |
| ManimExec.RemoveScript | manim_exec.py:35-38 | the script path is gone and nothing else changes |

## Left out

- The HTTP layer: routes, CORS, background scheduling, request validation
  (`max_length=50` on `name` is the predicate `ValidParams`) and loading the
  environment.
- Concurrency: each block under a lock is one atomic step. Interleavings of
  cleanup with a running background job are not modelled.
- Logging: the `logger.error` call in `process_visualization`'s exception
  handler (text_api.py:125) is output only and is left out.
- Network requests: the organization lookup, `create_new_chat`,
  `send_message`, listing, history, uploads and resets. Their answers (the
  reply text or an exception message, the status codes) are inputs.
- `delete_video`, `construct_manim_prompt`'s template text (only its
  output-format block is used, by `ExtractRejectsPromptFormat`) and
  text_main.py, which is a one-off script outside the job pipeline.
- `os.makedirs`, the full render command line (media directory, flags), and
  the renderer process itself: its outcome is the input `RenderOutcome`.
  The `Host` file map tracks only the temporary script, not the video the
  renderer writes or the media directory.
- ManimExec.RunManimCode: a failure while writing the temporary file happens
  before the `try`, so it would leave the file behind; that path is not
  modelled.
- ClaudeApi.ProcessStreamResponse: lines are already decoded strings, so a
  UTF-8 decoding error is not modelled; the `print_stream` echo is output
  only and is left out.
- ClaudeApi.Extension: POSIX `splitext` only; Windows separators are not
  modelled.
- ClaudeApi.Lower: ASCII letters only; Python's full Unicode lower-case
  mapping (for example `K`, the Kelvin sign, lower-casing to `k`) is not
  modelled.
- ClaudeApi.Upper: ASCII letters only; Python's full Unicode upper-case
  mapping (for example `ſ` upper-casing to `S`) is not modelled.
- ManimExec.IsWordChar: `\w` is ASCII `[A-Za-z0-9_]`; Python's Unicode word
  characters are not modelled.
- ClaudeApi.GetHeaders: the order of the headers in the dictionary is not
  modelled, only names and values.
- TextApi.ProcessVisualization: `JobStatus` objects are updated in place in
  the source; the model replaces the `Job` value in the map. No other
  reference to a job object exists, so no aliasing is lost.
- TextApi.ClientPool.GetClient: the pool size is the number of clients, as
  the constructor makes it; a pool whose size differs from its list is not
  modelled.
