# OctoBlank conversation manager, modelled in Dafny

OctoBlank is a desktop chat front-end over a local language model. Its one
piece of real logic is `ConversationManager` in `main.py`. This class keeps an
ordered log of `{role, content, timestamp}` messages. The whole log is
rewritten to a JSON file after every change. The manager deletes messages in
full or by keyword, builds a bounded prompt from the most recent messages, and
runs one chat turn: it records the user's message, asks the model, cleans the
reply and records it.

The project has three modules, one file each:

- `text.dfy`, module `Text`: the Python string builtins the manager uses.
  These are `str.strip()` (with Python's full whitespace set), `str.lower()`,
  the substring test `sub in s`, and `str.split(sep)` with its inverse `join`.
- `conversation.dfy`, module `Conversation`: the values and the pure parts of
  the operations. It has messages, the storage file as a value, the keyword
  filter, the history window and prompt, and the reply clean-up.
- `manager.dfy`, module `Manager`: the class `ConversationManager`. It has
  the fields `history` and `storage`, and one method per method of the Python
  class. Each method states the new history and the new file contents.

The storage file is the value `Storage`: `Absent`, `Log(entries)` or
`Unreadable`. Each save ends in one of three ways:

- `Written`: the file now holds the history.
- `OpenFailed`: `open` raised, so the file is untouched.
- `WriteFailed`: `open(..., 'w')` had already emptied the file when
  `json.dump` raised, so the file no longer parses.

In every case the in-memory change stays, because `_save_history` only
prints the error. The caller chooses the save outcome, the timestamps and the
model. The model is a function from the prompt to `Generated(text)` or
`Raised(error)`.

When the model call raises, `generate_response` returns
`"Error generating response: …"` and records no assistant turn
(main.py:107-108). Timestamps are whatever `datetime.now()` returns, and
nothing orders them. The delete operations return nothing.

## Model

| member | source | states |
|---|---|---|
| `Text.Strip` | main.py:100 | the result has no whitespace at either end, and the input is the result with only whitespace on each side |
| `Text.StripTrimmed` | main.py:100 | a string with no whitespace at either end is left unchanged by stripping |
| `Text.StripIdempotent` | main.py:100-102 | stripping twice gives the same as stripping once |
| `Text.StripKeepsAbsent` | main.py:102 | stripping cannot create an occurrence of a substring |
| `Text.LowerContains` | main.py:71 | under the model's character-wise `Lower`, a verbatim substring stays a substring once both strings are lower-cased, so the lower-cased test never misses it |
| `Text.SplitJoin` | main.py:102 | joining the pieces of `s.split(sep)` with `sep` gives back `s` |
| `Text.SplitLast` | main.py:102 | the last piece of a split is the suffix of the string from `LastPieceStart` on |
| `Text.LastPieceStart` | main.py:102 | no separator occurs from the start of the last piece on; when one occurs at all, the piece starts right after an occurrence |
| `Text.LastPiece` | main.py:102 | when the separator occurs, `split(sep)[-1]` starts right after an occurrence of it and no occurrence starts from there on |
| `Text.SplitLastAfterSep` | main.py:102 | when the separator occurs, the last piece of the split is exactly the text after an occurrence of it, and no occurrence starts from there on |
| `Text.SplitLastFree` | main.py:102 | the last piece of a split holds no separator |
| `Text.SplitWithout` | main.py:102 | a string without the separator splits into itself alone |
| `Conversation.Save` | main.py:45-51 | a written file loads back as exactly the history; a failed open leaves the file as it was; a failed dump leaves a file that loads as empty |
| `Conversation.KeepUnmatched` | main.py:71 | no survivor contains the keyword, ignoring case, and the result is no longer than the log |
| `Conversation.KeepUnmatchedCounts` | main.py:71 | every message that does not match survives as often as it occurred; every matching message is removed |
| `Conversation.VerbatimDeleted` | main.py:71 | under the model's character-wise `Lower`, a message whose content holds the keyword, verbatim or ignoring case, is not among the survivors |
| `Conversation.KeepUnmatchedOrder` | main.py:71 | the survivors are a subsequence of the log, so their relative order is kept |
| `Conversation.KeepUnmatchedNone` | main.py:71 | a log with no matching message is left unchanged |
| `Conversation.KeepUnmatchedIdempotent` | main.py:71 | deleting by the same keyword twice changes nothing the second time |
| `Conversation.KeepUnmatchedEmptyKeyword` | main.py:71 | the empty keyword deletes every message |
| `Conversation.Window` | main.py:78 | the window is the last min(20, length) messages of the log, in their order |
| `Conversation.ContextPrompt` | main.py:75-81 | the prompt has at most 2048 characters; it is a prefix of preamble + rendered window + cue; it equals that text when it fits and is exactly 2048 long otherwise |
| `Conversation.RenderAllAppend` | main.py:78-79 | rendering a concatenation is the concatenation of the renderings |
| `Conversation.RenderAllOldestFirst` | main.py:78-79 | the oldest message of the window is rendered first |
| `Conversation.RenderAfter` | main.py:78-79 | appending the oldest remaining line to the text built so far leaves the final text unchanged, which is the step of the loop |
| `Conversation.WindowSlides` | main.py:78 | appending a message adds it at the end of the window; a full window drops its oldest message |
| `Conversation.PromptStartsWithPreamble` | main.py:77-81 | every prompt begins with the whole preamble, since the preamble is shorter than the bound |
| `Conversation.WindowNewest` | main.py:78 | the window of a non-empty log is non-empty and ends with its newest message |
| `Conversation.FullContextEndsWithNewest` | main.py:77-81 | the context of a non-empty log ends with the line of its newest message followed by the cue |
| `Conversation.PromptEndsWithLatest` | main.py:77-87 | when the context fits, the prompt built after appending a message ends with that message's line and the cue |
| `Conversation.PromptOfTwoTurns` | main.py:77-81 | for the log (user "hi", assistant "hello") the prompt is the preamble, "User: hi", "Assistant: hello", then the cue |
| `Conversation.MarkerDoesNotOverlap` | main.py:101-102 | two occurrences of `Assistant:` never overlap |
| `Conversation.LastMarker` | main.py:102 | an occurrence of the marker with none starting at or after its end is the last occurrence |
| `Conversation.LastMarkerStart` | main.py:102 | when the marker occurs, `split('Assistant:')[-1]` is the text after its last occurrence |
| `Conversation.AfterLastMarker` | main.py:101-102 | `split('Assistant:')[-1]` is the text after the last marker, and once stripped holds no marker |
| `Conversation.CleanReply` | main.py:100-102 | the cleaned reply has no surrounding whitespace and no marker; without a marker it is the stripped reply; with one it is the stripped text after the last marker |
| `Conversation.CleanReplyInRaw` | main.py:100-102 | the cleaned reply is a piece of the raw reply |
| `Conversation.ErrorReply` | main.py:108 | the error reply is longer than the exception text and ends with it |
| `Manager.ConversationManager.constructor` | main.py:25-28 | history starts as what loading leaves from an empty history: empty unless the file holds a log |
| `Manager.ConversationManager.LoadHistory` | main.py:35-43 | an absent file keeps the history, an unreadable one empties it, a log replaces it |
| `Manager.ConversationManager.SaveHistory` | main.py:45-51 | the file becomes the saved history (and is in sync) on success; a failed save leaves the history in place |
| `Manager.ConversationManager.AddMessage` | main.py:53-61 | history grows by exactly one record with the given role, content and timestamp, earlier records unchanged; then it is saved |
| `Manager.ConversationManager.DeleteAllHistory` | main.py:63-66 | history becomes empty whatever it was, so repeating it is idempotent; the empty log is saved |
| `Manager.ConversationManager.DeleteSpecificEntry` | main.py:69-73 | history becomes the keyword filter of the old history; then it is saved |
| `Manager.ConversationManager.GetContextPrompt` | main.py:75-81 | the loop builds the same prompt as `ContextPrompt`, at most 2048 characters |
| `Manager.ConversationManager.GenerateResponse` | main.py:83-108 | the user record is appended and saved first, and the prompt is built from the history ending with it. On a reply, the cleaned reply is returned and appended as the assistant record. On an exception, the error text is returned and only the user record was added |

## Left out

- The Pygame window, `draw_chat`, the event loop of `main`, the mouse hit test, the command words (`/exit`, `/deldtb`, `/costumdeldtb`) and the on-screen message list (main.py:9-20, 129-218). These are rendering and input handling.
- `wrap_text` (main.py:111-126). It is layout and depends on the font's own measurement.
- Loading the GPT4All model, `chat_session` and the sampling parameters (main.py:6, 31, 90-97). The model is a parameter of `GenerateResponse` that returns text or raises. A failure to load the model in `__init__` is not modelled.
- JSON encoding, `os.path.exists` and `open` (main.py:37-51). They are the `Storage` value and the `SaveOutcome` parameter. The storage path is not modelled, and neither is a file that parses but is not a list of message records (the source would load it as it is).
- `datetime.now().isoformat()` (main.py:58). The timestamp is a string chosen by the caller.
- The console `print` diagnostics (main.py:42, 51, 67, 73).
- `Manager.ConversationManager.LoadHistory`: roles other than `user` and `assistant` in a loaded file cannot be expressed. The source would render them through `capitalize()`.
- `Text.Lower`: only the ASCII letters are lower-cased, because Python's `str.lower` follows full Unicode case mapping, which can also change the length of a string. The difference runs both ways. Non-ASCII letters are not folded, so the keyword "é" keeps a message "É" that the source deletes. Python's final-sigma rule lower-cases a word-final "Σ" to "ς", so the source keeps a message "ΑΣ" for the keyword "Σ", which the model deletes. `Text.LowerContains` and `Conversation.VerbatimDeleted` hold of the model's `Lower`, not of Python's.
- `Text.Split`: it requires a non-empty separator. Python raises `ValueError` for an empty one, but the only separator used is the constant `"Assistant:"`.
- `Conversation.ContextPrompt`: `context_window` is described as a number of tokens, but the code uses it as a number of characters. The model does what the code does.
