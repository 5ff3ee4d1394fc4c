# Telegram shell bot: dispatch, output and authentication model

This project models the pure decisions in `bot.py`, a Telegram bot that runs
shell commands for a fixed set of users. The bot's own terms are used
throughout.

- **Authentication** (module `Auth`). `ALLOWED_USERS` is a set of user ids.
  `BOT_PASSWORD` is an optional string. `authenticated_users` is a set that only
  grows. The `auth` handler adds the sender only when all three hold: the
  sender is allow-listed, at least one argument was given, and the first
  argument equals the password. `is_authenticated` is the membership test
  `Auth.IsAuthenticated`.
- **Dispatch** (module `Dispatch`). `handle_message` drops a message in three
  cases: the sender is not authenticated, the text is missing or empty, or the
  command begins with `start`, `auth` or `help`. Before the reserved-word test it
  strips exactly one leading `/`. `Dispatch.Decide` returns the command string
  that is logged and run, or `None`.
- **Output** (module `Output`). The bot uses stdout when it is non-empty and
  otherwise stderr. When both are empty it uses the fixed text
  `Command executed successfully (no output)`. The text is cut into consecutive
  slices of at most 4000 characters. Each slice is sent inside a Markdown code
  fence: three backticks and a newline before it, a newline and three
  backticks after it. `Output.SplitOutput` is the loop of `handle_message`.
  `Output.Chunks` is its functional definition.
- **Audit log** (module `AuditLog`). This is the line `log_command` writes:
  `[<timestamp>] User <id> (<username>): <command>` followed by a newline. It
  uses Python's decimal rendering of the id, and `None` for a missing username.
- **Handling and traces** (module `Bot`). `Bot.HandleMessage` composes the
  pieces for one message. `Bot.Run` folds a sequence of updates (`/auth`
  commands and other messages) over the authentication state. The lemmas about
  `Run` show three things. The authenticated set stays inside the allow-list.
  It stays empty when no password is set. A command runs only for a sender who
  earlier passed `/auth`.

Strings are `seq<char>`. Dafny's `char` is a Unicode scalar value, so slicing
by index matches Python's slicing of `str` by code point.

`bot.py` has no command classifier, process supervisor, streaming, timeouts,
`stop` command or case folding. The model has none of them either:
- The reserved words are only `start`, `auth` and `help`.
- The test is a case-sensitive prefix test.
- stdout and stderr are never merged or tagged. stderr is used only when
  stdout is empty.
- The full output is delivered, and nothing is truncated.

## Model

| member | source | states |
|---|---|---|
| Auth.Authenticate | bot.py:36-50 | Success exactly when the sender is allow-listed, an argument was given and the first argument equals the configured password; then the sender is added. The unauthorised, usage and invalid-password replies leave the set unchanged. Unauthorized is replied iff the sender is not allow-listed, Usage iff allow-listed with no arguments |
| Auth.AuthenticateOnlyAdds | bot.py:46-47 | auth never removes a user, adds at most the sender, and the sender ends up authenticated iff it already was or every guard passed |
| Auth.AuthenticatePreservesValid | bot.py:38-47 | auth keeps the authenticated set inside the allow-list and keeps it empty when no password is configured |
| Auth.ExtraArgumentsIgnored | bot.py:46 | arguments after the first do not change the result of auth |
| Dispatch.StripSlash | bot.py:62 | a leading '/' is removed exactly once (the text is "/" followed by the result), and text without a leading '/' is returned unchanged |
| Dispatch.IsReservedIff | bot.py:65-66 | a command is reserved iff it begins with the characters "start", "auth" or "help" (case-sensitive prefix test) |
| Dispatch.Decide | bot.py:52-66 | a command is produced iff the sender is authenticated, the text is present and non-empty, and the slash-stripped text is not reserved; text starting with '/' is "/" followed by the command (exactly one slash removed), and other text is the command unchanged |
| Dispatch.DecideExamples | bot.py:57-66 | "//ls" runs "/ls", "ls -la" runs unchanged, "/starter" and "helpme" are skipped, "Start" runs, empty text is dropped |
| Output.SelectOutput | bot.py:79-81 | non-empty stdout is the output and stderr is discarded; otherwise stderr; if both are empty, the fixed placeholder text; the output is never empty |
| Output.ChunksConcat | bot.py:84-85 | the chunks joined in order equal the output exactly |
| Output.ChunksBounds | bot.py:84-85 | every chunk is non-empty and at most 4000 characters, all but the last exactly 4000, and there are ceil(len/4000) of them |
| Output.ChunkIsSlice | bot.py:84-85 | the k-th chunk is output[4000k .. min(4000(k+1), len)] and starts inside the output |
| Output.SplitOutput | bot.py:84-85 | the loop over range(0, len, 4000) taking output[i:i+4000] at each step builds exactly the chunk list Output.Chunks, whose properties the lemmas above state |
| Output.FenceRoundTrip | bot.py:86 | removing the code fence from a fenced chunk gives the chunk back, and every fenced message is the fence around its inside |
| Output.RepliesRoundTrip | bot.py:79-86 | at least one message is sent, ceil(len/4000) of them, each a fenced message of at most 4008 characters whose inside is non-empty, at most 4000 characters and exactly 4000 except for the last; with fences removed and joined in order they equal the selected output |
| AuditLog.NatToDecimal | bot.py:117 | the id text is non-empty, all decimal digits, without a leading zero unless it is "0" |
| AuditLog.DecimalRoundTrip | bot.py:117 | the decimal text of a user id (with '-' for negatives) parses back to the same id |
| AuditLog.LogEntry | bot.py:116-117 | the entry is "[timestamp]", then " User ", the decimal user id, " (", the username text (or "None"), "): ", the command and a final newline, each field at its exact offset and the length the sum of the parts |
| AuditLog.LogEntrySingleLine | bot.py:117 | the entry is a single line (only its final newline) iff timestamp, username and command contain no newline |
| Bot.HandleMessage | bot.py:52-86 | a command runs iff the dispatch conditions hold; then the log line names the stripped command, and the replies are ceil(len/4000) fenced messages whose insides are non-empty, at most 4000 characters, all but the last exactly 4000, and joined in order equal the selected output of that command |
| Bot.RunPreservesValid | bot.py:13-17 | after any sequence of updates the authenticated set is a subset of ALLOWED_USERS, and empty when BOT_PASSWORD is unset |
| Bot.RunAuthenticatedIff | bot.py:36-50 | after a sequence of updates a user is authenticated iff it was before or some update was an auth from it passing every guard; no update removes a user |
| Bot.ExecutionRequiresPassword | bot.py:46-59 | a message runs a command only if its sender is allow-listed, a password is configured, and the sender earlier sent auth with that password |
| Bot.NoPasswordNothingRuns | bot.py:14-17 | with BOT_PASSWORD unset, the authenticated set stays empty and every message is dropped |

## Left out

- Telegram transport: the application builder, handler registration,
  `reply_text`, Markdown parse mode and polling (bot.py:5-6, 122-137). Replies
  are returned as a sequence of strings.
- Which handler a `/start`, `/auth` or `/help` update reaches is decided by
  handler registration (bot.py:128-134). The model covers only the `auth`
  handler and the `handle_message` filter.
- Subprocess spawning and `communicate()` (bot.py:72-77). The command's
  decoded `(stdout, stderr)` comes in as the parameter `run`.
- Byte decoding and its failures, and the catch-all error reply (bot.py:79,
  88-89). `if stdout` tests the raw bytes. Non-empty bytes decode to a
  non-empty string, so the model tests the decoded strings instead.
- Environment loading with dotenv and `os.getenv` (bot.py:9-14). `ALLOWED_USERS`
  is taken as a set of ints, and the lenient `int()` parse is not modelled.
- The wall clock and the file append in `log_command` (bot.py:114-120). The
  timestamp is a parameter and the log line is returned.
- The reminder in `is_authenticated` (bot.py:110). `reply_text` is a
  coroutine there and is called without `await`, so it never runs and nothing
  is sent. The model likewise sends nothing for a dropped message.
- The static texts of `start` and `help_command` (bot.py:19-34, 91-105).
- Command classification, process supervision, streaming, timeouts and
  process-group signalling. None of these exists in `bot.py`.
