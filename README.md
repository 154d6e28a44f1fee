# OllaDesk chat client core, modelled in Dafny

OllaDesk is a browser front end for a local Ollama inference server. The
core modelled here is the part that is not drawing on screen:

- the **chat session store**: the list of chats, the active chat, the model
  roster, and the streaming flags. Its actions load, create, select, delete
  and send. Sending is a small state machine: a guard, the user message plus
  an empty assistant placeholder, the auto-title, the streamed increments,
  error annotation, and a `finally` that saves and clears the flags;
- the **Ollama client**: the roster request, the liveness probe, and the
  decoder of the newline-delimited JSON chat stream. The decoder keeps a
  buffer across reads, splits it on newlines, holds back the trailing
  fragment, skips blank and unparsable lines, and parses the leftover once
  at the end;
- **search** over chats: a case-insensitive substring match on titles first,
  then on messages, with a 30-character snippet window around the first
  message match, archived chats skipped;
- the **helpers** `cn`, `truncate` and `generateTitle`;
- the **interface store** (panel toggles and toasts) and the **settings
  store** (update one key, reset to defaults);
- the **chat database**: an object store keyed by chat id, opened once,
  with upsert, delete and a listing newest first.

Modules follow the source files:

| Dafny file | Source |
|---|---|
| `chat_store.dfy` | `src/store/chatStore.ts` |
| `ollama.dfy` | `src/lib/ollama.ts` |
| `search.dfy` | `src/lib/search.ts` |
| `utils.dfy` | `src/lib/utils.ts` |
| `ui_store.dfy` | `src/store/uiStore.ts` |
| `settings_store.dfy` | `src/store/settingsStore.ts` |
| `storage.dfy` | `src/lib/storage.ts` |
| `chat_types.dfy`, `settings_types.dfy` | `src/types/chat.ts`, `src/types/settings.ts` |
| `strings.dfy`, `wrappers.dfy` | the JavaScript string built-ins used, and `Option`/`Result` |

How the model is set up:

- **Stores are classes.** Each store's fields are updated by its methods, and
  every method states its whole new state. That includes the database
  connection: every action that reaches the database ends with a connection
  held. It is a new one when none was open, and otherwise the one already
  open (`OpenedOnce`). An action that returns before reaching the database
  leaves the connection as it was.
- **Ids and timestamps are parameters.** The source draws them from
  `uuidv4()`, `Date.now()` and `Math.random()`.
- **The network is an input.** A datatype describes what `fetch` produced:
  a rejection, or a status with a body read in chunks of text.
- **JSON parsing is a parameter.** `JSON.parse(line).message?.content` is the
  function parameter `parse: string -> Option<string>`. `Some(c)` means the
  line parsed and carries the string `c`; `None` means the parse failed or
  there is no string content.
- **`sendMessage` runs the decoder.** It calls the decoder method
  (`Ollama.StreamChat`) on the reply and applies its increments one by one,
  as the `for await` loop does.
- **Aborting ends the stream.** The abort signal is a possible ending of the
  stream: the fetch is aborted, or a read is rejected.

The model follows the code as written, also where it departs from its own
types and settings:

- `loadModels` always selects the first roster entry. It ignores the
  preferred model of the settings.
- `sendMessage` never updates `updatedAt`. It ignores the auto-title setting
  and does not check `isStreaming`; only the input box guards against a
  second send.
- `createChat` builds a chat without `updatedAt` and `archived`.
- The database listing is sorted by `createdAt`, not `updatedAt`.
- `setActiveChat` accepts an id that no chat has.
- `deleteChat` activates the first remaining chat in list order.
- Storage failures are not handled. The first `await saveChat` of
  `sendMessage` sits outside its `try`.
- No sampling options are sent with a chat request.
- The auto-title appends three dots `...`. The unused `generateTitle` appends
  the one-character ellipsis `…`.

## Model

| member | source | states |
|---|---|---|
| ChatStore.ChatStoreState.constructor | src/store/chatStore.ts:26-33 | initial state: no chats, no active id, no models, empty selection, disconnected, not streaming, no controller |
| ChatStore.ChatStoreState.LoadChats | src/store/chatStore.ts:35-41 | the chats become every stored chat exactly once, newest first; when no truthy id was active and there are chats, the first becomes active; otherwise the active id is kept |
| ChatStore.ChatStoreState.LoadModels | src/store/chatStore.ts:43-54 | on success: the roster, `models[0].name` (or `""` for an empty roster) selected, connected. On failure: no models, disconnected, selection unchanged. The error never escapes. Chats and flags unchanged |
| ChatStore.ChatStoreState.CheckOllamaConnection | src/store/chatStore.ts:56-62 | a failed probe sets disconnected and leaves roster and selection alone; a successful probe loads the roster, with the outcomes of `LoadModels` |
| ChatStore.ChatStoreState.CreateChat | src/store/chatStore.ts:64-78 | one new chat is put in front of the old list, in order: title `New Chat`, the selected model, no messages, no `updatedAt`/`archived`. It becomes active and is upserted into the database. Nothing else changes |
| ChatStore.ChatStoreState.SetActiveChat | src/store/chatStore.ts:80-82 | the active id becomes the given id, without an existence check; nothing else changes |
| ChatStore.ChatStoreState.DeleteChat | src/store/chatStore.ts:84-96 | the record leaves the database, and every chat with the id leaves the list. If the id was active, the first remaining chat (or none) becomes active; otherwise the active id is unchanged |
| ChatStore.ChatStoreState.SendMessage | src/store/chatStore.ts:98-203 | without a truthy active id, with blank content, or when no chat has the id: no request, and chats, database and flags unchanged. Otherwise the request carries the selected model and the filtered history; the chats with the id become the prepared chat with the streamed increments and the error annotation, everything else in place; the database holds that final chat; `isStreaming` is false and the controller null |
| ChatStore.ChatStoreState.Send | src/store/chatStore.ts:105-202 | past the guard: the prepared chat replaces the found one and is saved, then the request is built and the exchange runs, with the same outcome as above |
| ChatStore.ChatStoreState.Prepare | src/store/chatStore.ts:106-144 | the found chat is replaced in the list by the prepared one, which is exactly the chat with its auto-title, the selected model, the user message and the empty placeholder. It is saved under its id, `isStreaming` is set and a new controller is held. Nothing else changes |
| ChatStore.ChatStoreState.Exchange | src/store/chatStore.ts:146-202 | the try/catch/finally: the chat ends as the outcome of the run, is saved, and the streaming flags are cleared on every ending |
| ChatStore.ChatStoreState.ApplyIncrements | src/store/chatStore.ts:151-170 | after the loop the chat with the id holds all increments, concatenated, appended to its last message; the other fields are unchanged |
| ChatStore.ChatStoreState.Catch | src/store/chatStore.ts:171-194 | an error annotates the last message of the chat with the id; an abort or a normal end changes nothing |
| ChatStore.ChatStoreState.Finally | src/store/chatStore.ts:195-202 | the chat found under the id is upserted, `isStreaming` becomes false and the controller null, the chats are unchanged |
| ChatStore.ChatStoreState.StopStreaming | src/store/chatStore.ts:205-210 | a held controller is aborted; without one nothing happens |
| ChatStore.AbortController.Abort | src/store/chatStore.ts:207-209 | the controller is marked aborted |
| ChatStore.FindChat | src/store/chatStore.ts:102 | `None` exactly when no chat has the id; otherwise a chat of the list with that id |
| ChatStore.FindFirst | src/store/chatStore.ts:102 | `find` returns the chat at the first index with the id |
| ChatStore.ReplaceChat | src/store/chatStore.ts:137 | same length; position by position, a chat with the id is replaced and any other is kept |
| ChatStore.ReplaceTwice | src/store/chatStore.ts:152-168 | replacing the same id twice keeps only the second replacement |
| ChatStore.FindReplaced | src/store/chatStore.ts:195-199 | after a replacement, looking the id up finds the replacement |
| ChatStore.RemoveChats | src/store/chatStore.ts:87 | no chat of the result has the id, and it is no longer than the input |
| ChatStore.RemoveChatsMembers | src/store/chatStore.ts:87 | a chat remains exactly when it was in the list and has another id |
| ChatStore.RemoveChatsAppend | src/store/chatStore.ts:87 | the filter keeps order: filtering a concatenation concatenates the filtered parts |
| ChatStore.AppendToLast | src/store/chatStore.ts:156-163 | the chunk is appended to the last message's content only when that message is an assistant message. The length and all earlier messages are kept. Otherwise the messages are unchanged |
| ChatStore.AppendTwice | src/store/chatStore.ts:151-170 | appending `a` then `b` is appending `a + b`, so increments are concatenated in the order received |
| ChatStore.AnnotateError | src/store/chatStore.ts:180-187 | a trailing assistant message with content is kept; one that is empty becomes `Error: <message>`. Every other message, and the length, are kept |
| ChatStore.AutoTitle | src/store/chatStore.ts:113-117 | a chat with messages keeps its title; for a first message the title is the trimmed text if it has at most 50 characters, otherwise its first 50 characters plus `...` |
| ChatStore.RequestMessages | src/store/chatStore.ts:147-149 | only user messages and assistant messages with content are sent, no more than there are messages |
| ChatStore.RequestMessagesAppend | src/store/chatStore.ts:147-149 | the request of a concatenation is the concatenation of the requests, so the messages sent keep their order |
| ChatStore.RequestMessagesOne | src/store/chatStore.ts:148-149 | one message is sent, as its role and content, exactly when it is a user message or an assistant message with content; otherwise it is dropped |
| ChatStore.Prepared | src/store/chatStore.ts:127-133 | the chat keeps its id, creation time and other fields, gets the auto-title and the selected model, and its messages are the old ones, then the user message with the trimmed text, then an empty assistant placeholder |
| ChatStore.AppendChunk | src/store/chatStore.ts:152-169 | the list keeps its length; a chat with another id is kept; every chat with the id becomes the first such chat with the chunk appended to its last message; without such a chat nothing changes |
| ChatStore.AnnotateChat | src/store/chatStore.ts:176-193 | the list keeps its length; a chat with another id is kept; every chat with the id becomes the first such chat with its last message annotated; without such a chat nothing changes |
| ChatStore.RequestOfPrepared | src/store/chatStore.ts:127-149 | the request history is the history before the send plus the new user message; the empty placeholder is never sent |
| ChatStore.StreamedMessages | src/store/chatStore.ts:127-170 | after streaming, the messages are exactly the old ones, the user message with the trimmed text, and the assistant message holding the concatenated increments: two appended, in that order |
| ChatStore.SettledReply | src/store/chatStore.ts:171-194 | the assistant reply reads `Error: <message>` exactly when the run failed with no increments. Otherwise it holds the concatenated increments, for an abort too. The other messages are unchanged |
| ChatStore.StreamStep | src/store/chatStore.ts:151-170 | one more chunk moves the state from "streamed so far" to "streamed one increment further" |
| ChatStore.AnnotateStep | src/store/chatStore.ts:176-193 | the catch update on the streamed state gives the state with the annotated chat |
| Ollama.FetchModels | src/lib/ollama.ts:5-10 | succeeds exactly for an OK status with a readable body. A non-OK status fails with `Failed to fetch models`. An absent `models` gives `[]`, a present one is returned as is |
| Ollama.CheckConnection | src/lib/ollama.ts:12-19 | true exactly when `fetchModels` succeeds, i.e. an OK status with a readable body |
| Ollama.StreamChat | src/lib/ollama.ts:26-80 | the method's run equals the reference run. A rejected fetch, a non-OK status (`Ollama error: <status> <text>`) or a missing body gives no increment and the error. A body yields the increments of its complete lines and, after a normal end only, one parse of the leftover |
| Ollama.ReadChunks | src/lib/ollama.ts:45-67 | after the read loop the buffer is the leftover of the whole text read, and the yield is that of its complete lines, however the text was cut into reads |
| Ollama.YieldLines | src/lib/ollama.ts:56-66 | the inner loop yields exactly the increments of the lines, in order |
| Ollama.LineIncrement | src/lib/ollama.ts:57-65 | at most one increment; a yielded content is non-empty and comes from a non-blank line that parsed; and a non-blank line that parses with non-empty content yields exactly that content |
| Ollama.LineYielded | src/lib/ollama.ts:56-66 | a non-blank line with non-empty parsed content yields that content, in its place between the yields of the lines before and after it |
| Ollama.ExpectedRun | src/lib/ollama.ts:31-79 | without a read body there is no increment and no normal end; the run ends normally exactly when the body was read to its end, and with the abort error exactly when the fetch or a read was aborted; a body cut off yields the increments of its complete lines only |
| Ollama.LineIncrements | src/lib/ollama.ts:56-66 | at most one increment per line |
| Ollama.FramingLosesNothing | src/lib/ollama.ts:52-54 | buffer plus chunk equals the complete lines joined with newlines, then a newline, then the new buffer; no line nor the buffer contains a newline |
| Ollama.ResumeFromBuffer | src/lib/ollama.ts:48-54 | framing `x` then `y` from the held-back fragment completes the same lines and holds back the same fragment as framing `x + y` |
| Ollama.ReadStep | src/lib/ollama.ts:48-67 | one turn of the read loop keeps the loop invariant: the buffer is the leftover, and the yield so far is that of the complete lines of the text read |
| Ollama.LineIncrementsAppend | src/lib/ollama.ts:56-66 | the yield of two line sequences is the concatenation of their yields: increments come out in line order |
| Ollama.DecodeResumes | src/lib/ollama.ts:48-79 | decoding `x + y` yields the complete lines of `x`, then the decoding of `x`'s leftover followed by `y`: a read boundary can be anywhere |
| Ollama.RechunkingInvariant | src/lib/ollama.ts:48-79 | two bodies with the same text and ending give the same run, however the text is cut into reads |
| Ollama.Decode | src/lib/ollama.ts:48-79 | a body read to its end yields what all its newline-separated pieces yield, in order: the leftover is parsed once, like one more line |
| Ollama.BlankLineSkipped | src/lib/ollama.ts:57 | a blank line yields nothing and does not disturb what the other lines yield |
| Ollama.MalformedLineSkipped | src/lib/ollama.ts:58-65 | a line whose parse fails yields nothing, and the lines after it are still decoded |
| Ollama.IncrementsComeFromLines | src/lib/ollama.ts:56-66 | every increment is the non-empty content of some non-blank line that parsed |
| Ollama.IncrementsNonEmpty | src/lib/ollama.ts:56-79 | no run yields an empty increment |
| Search.SearchChats | src/lib/search.ts:10-38 | the nested loops with `continue` and `break` return exactly the reference results |
| Search.MessageSnippet | src/lib/search.ts:25-34 | the message loop that stops at the first match returns exactly the snippet of the first matching message, or none |
| Search.FirstMessageMatch | src/lib/search.ts:25-34 | no snippet exactly when no message content contains the query, case-insensitively |
| Search.ChatResult | src/lib/search.ts:16-34 | nothing exactly for an archived chat or a chat whose title and messages all fail to match; a result names the chat itself; it is a title match exactly when the title matches, and has a snippet exactly when it is a message match |
| Search.Contribution | src/lib/search.ts:16-34 | a chat contributes at most one result |
| Search.ResultsFor | src/lib/search.ts:15-35 | no more results than chats |
| Search.ResultsForStep | src/lib/search.ts:15-35 | one more chat appends its own contribution at the end |
| Search.NormalisedQueryNonEmpty | src/lib/search.ts:11-12 | a query that is not blank is never empty after lower-casing and trimming |
| Search.BlankQueryFindsNothing | src/lib/search.ts:11 | an empty or whitespace-only query returns no result |
| Search.ResultsFromInput | src/lib/search.ts:15-16 | every result is about a chat of the input that is not archived |
| Search.ResultsForAppend | src/lib/search.ts:15-37 | the results of a concatenation are the concatenated results: results keep the chat order and form a subsequence |
| Search.OneChatResult | src/lib/search.ts:15-35 | a chat yields at most one result, and none exactly when it is archived or neither its title nor any message matches |
| Search.TitleMatchFirst | src/lib/search.ts:19-22 | a non-archived chat whose title matches yields exactly one title result without a snippet, whatever its messages |
| Search.MessageMatchSecond | src/lib/search.ts:24-33 | a non-archived chat whose title does not match but one of whose messages does yields exactly one message result with a snippet |
| Search.FirstMatchingMessage | src/lib/search.ts:25-33 | the snippet is the one of the first matching message |
| Search.SnippetWindow | src/lib/search.ts:28-29 | the window `[max(0, idx-30), min(len, idx+q+30))` holds the match. It is cut at the start exactly when the match starts after position 30, and at the end exactly when more than 30 characters follow the match |
| Search.Snippet | src/lib/search.ts:28-30 | for a match inside the content, the snippet is at most the match plus 30 characters on each side and two `…` long |
| Search.SnippetShape | src/lib/search.ts:30 | the snippet is the window of the content, with a leading `…` when cut at the start and a trailing `…` when cut at the end |
| Search.SnippetHoldsMatch | src/lib/search.ts:26-30 | the matched text sits in the snippet (at offset 31 when the start was cut, at `idx` otherwise) and equals the query up to case |
| Utils.TruthyNames | src/lib/utils.ts:3 | `filter(Boolean)` keeps only non-empty strings, no more than there are arguments |
| Utils.TruthyNamesExact | src/lib/utils.ts:3 | a name is kept exactly when it is a truthy argument |
| Utils.TruthyNamesAppend | src/lib/utils.ts:3 | the filter keeps argument order |
| Utils.Cn | src/lib/utils.ts:2-4 | empty exactly when no argument is truthy; splitting the result on spaces gives back the truthy names, in order, when none contains a space |
| Utils.Truncate | src/lib/utils.ts:7-10 | a string that fits is returned unchanged. Otherwise the result is a prefix of the string of at most `maxLen` characters, without trailing whitespace, then one `…`; only whitespace was dropped between the prefix and `maxLen` |
| Utils.TruncateCut | src/lib/utils.ts:9 | a string longer than `maxLen` keeps exactly `trimEnd` of its first `maxLen` characters before the `…`; for a negative `maxLen`, `trimEnd` of all but its last `-maxLen` characters, as `slice` counts from the end |
| Utils.GenerateTitle | src/lib/utils.ts:24-26 | empty exactly for blank content; at most 51 characters; the trimmed content when it has at most 50 characters, otherwise `trimEnd` of its first 50 characters followed by `…` |
| UiStore.UiState.constructor | src/store/uiStore.ts:24-27 | sidebar open, settings and right panel closed, no toasts |
| UiStore.UiState.ToggleSidebar | src/store/uiStore.ts:29 | the sidebar flag is negated and nothing else changes, so two toggles restore the state |
| UiStore.UiState.OpenSettings | src/store/uiStore.ts:30 | settings open, nothing else changes, so opening twice is opening once |
| UiStore.UiState.CloseSettings | src/store/uiStore.ts:31 | settings closed, nothing else changes, so closing twice is closing once |
| UiStore.UiState.ToggleRightPanel | src/store/uiStore.ts:32 | the right-panel flag is negated and nothing else changes |
| UiStore.UiState.ShowToast | src/store/uiStore.ts:34-36 | exactly one toast is appended at the end, of type `info` when none is given |
| UiStore.UiState.DismissToast | src/store/uiStore.ts:40 | the toasts become the old ones without that id |
| UiStore.Without | src/store/uiStore.ts:40 | no remaining toast has the id |
| UiStore.WithoutMembers | src/store/uiStore.ts:40 | a toast remains exactly when it was there and has another id |
| UiStore.WithoutAppend | src/store/uiStore.ts:40 | the filter keeps the order of the others |
| UiStore.WithoutAbsent | src/store/uiStore.ts:40 | dismissing an id no toast has changes nothing, so dismissing twice is dismissing once |
| UiStore.ShowThenDismiss | src/store/uiStore.ts:34-40 | dismissing a toast shown under a fresh id restores the list without it, whatever was shown after it |
| SettingsStore.Get | src/store/settingsStore.ts:8 | the value read under a key has that key's field type |
| SettingsStore.With | src/store/settingsStore.ts:16 | the key holds the new value |
| SettingsStore.WithKeepsOthers | src/store/settingsStore.ts:16 | every other key keeps its old value |
| SettingsStore.SameOnEveryKey | src/types/settings.ts:1-18 | two settings that agree on every key are equal |
| SettingsStore.WithSameValue | src/store/settingsStore.ts:16 | writing back a key's own value changes nothing |
| SettingsStore.WithTwice | src/store/settingsStore.ts:16 | of two updates of one key the second wins |
| SettingsStore.WithCommutes | src/store/settingsStore.ts:16 | updates of different keys commute |
| SettingsStore.SettingsState.constructor | src/store/settingsStore.ts:13 | the store starts from the loaded settings, nothing saved yet |
| SettingsStore.SettingsState.UpdateSetting | src/store/settingsStore.ts:15-19 | the key takes the value, every other key keeps its value, and the record saved is exactly the new settings |
| SettingsStore.SettingsState.ResetSettings | src/store/settingsStore.ts:21-25 | the settings become exactly the defaults, which are saved; so resetting is idempotent |
| Storage.Connection.constructor | src/lib/storage.ts:12-18 | the connection is opened under the given name and version |
| Storage.ChatStorage.constructor | src/lib/storage.ts:8 | nothing opened yet; the records left by earlier sessions |
| Storage.ChatStorage.GetDB | src/lib/storage.ts:10-21 | the first call opens `olladesk` version 1 as a new connection; every later call returns that same connection; the records are untouched |
| Storage.ChatStorage.GetChats | src/lib/storage.ts:23-27 | every stored chat exactly once and nothing else, sorted by `createdAt` descending; the records are untouched; the connection is held afterwards: a new `olladesk` version 1 connection if none was open, otherwise the one already open |
| Storage.ChatStorage.SaveChat | src/lib/storage.ts:29-32 | upsert keyed by id: the chat is the record under its id, all other keys unchanged; the connection is held afterwards: a new `olladesk` version 1 connection if none was open, otherwise the one already open |
| Storage.ChatStorage.DeleteChat | src/lib/storage.ts:34-37 | only the key `id` is removed; the connection is held afterwards: a new `olladesk` version 1 connection if none was open, otherwise the one already open |
| Storage.Insert | src/lib/storage.ts:26 | the inserted list holds the old chats and the new one, with nothing else |
| Storage.InsertSorted | src/lib/storage.ts:26 | insertion keeps the list newest first |
| Storage.SortByCreatedDesc | src/lib/storage.ts:26 | the result is sorted by `createdAt` descending and is a permutation of the input |
| Storage.SortKeepsListing | src/lib/storage.ts:26 | sorting a listing of the records keeps it a listing of the same records |
| Storage.ListingComplete | src/lib/storage.ts:23-27 | a listing holds every stored chat, each stored under its own id, and no chat twice |
| Storage.SavedChatIsListed | src/lib/storage.ts:29-32 | after an upsert the listing holds the new chat, every other record, and not the replaced version |
| Storage.DeletedChatIsGone | src/lib/storage.ts:34-37 | after a delete the listing holds no chat with that id |
| Strings.Trim | src/lib/search.ts:11-12 | a contiguous part of the input, starting where `trimStart` starts, with only whitespace before and after it; empty exactly for a blank string; no whitespace at either end |
| Strings.TrimEndUnique | src/lib/utils.ts:9 | a prefix that leaves only whitespace behind and does not end in whitespace is the result of `trimEnd` |
| Strings.TrimEnd | src/lib/utils.ts:9 | a prefix of the input; what was removed is whitespace; no trailing whitespace |
| Strings.ToLower | src/lib/search.ts:12 | same length; each character mapped by the lower-case map |
| Strings.IndexOf | src/lib/search.ts:26 | `-1` or a position where the query occurs, with no occurrence before it |
| Strings.Split | src/lib/ollama.ts:53 | at least one piece, even for the empty string |
| Strings.SplitPiecesFree | src/lib/ollama.ts:53 | no piece contains the separator |
| Strings.SplitConcat | src/lib/ollama.ts:52-53 | the pieces of `x + y` are those of `x` and of `y`, with the last of `x` fused to the first of `y` |
| Strings.JoinSplit | src/lib/ollama.ts:53-54 | joining the pieces of a split gives back the text |
| Strings.JoinShape | src/lib/utils.ts:3 | a join starts with the first part, followed by a separator when there are more parts, and ends with the last part |
| Strings.SplitJoin | src/lib/utils.ts:3 | splitting a join of separator-free parts gives back the parts |
| Strings.Slice | src/lib/search.ts:30 | for non-negative bounds, the part between the bounds clamped to the length |

## Left out

- React components, pages and hooks: rendering, DOM scrolling, key events, interval polling.
- `fetch`, `TextDecoder` and `res.body.getReader()` are not modelled. The network is an input datatype, and the text of each read is already decoded.
- `JSON.parse(...).message?.content` is the parameter `parse`.
- The shape of the roster JSON is reduced to "unreadable", or an object with an optional `models` list.
- `AbortController` signalling and async interleaving are not modelled. An abort is an ending of the stream at a fetch or read boundary. In the program, `deleteChat`, `createChat`, `setActiveChat` or a second send can run at every `await` of `sendMessage`; the model runs `sendMessage` without interleaving, so the store being changed under a running send is not captured. In particular the branches for a chat deleted mid-stream, `if (!chat) return state` (src/store/chatStore.ts:154 and 178) and a missing `finalChat` (src/store/chatStore.ts:198), are never reached in `SendMessage`; `AppendChunk` and `AnnotateChat` still state what those branches do.
- `uuidv4`, `Date.now` and the random toast id are parameters. The 3.5-second auto-dismiss timer of `showToast` is left out, but `ShowThenDismiss` states what the dismissal does.
- `formatTimestamp` (locale dates) and `debounce` (timers) are left out.
- IndexedDB and `openDB`'s upgrade callback are foreign code. The store is a map keyed by id, and the connection is an object. Storage failures (rejected promises) are not modelled.
- Storage.ChatStorage.GetChats: leaves the order of `getAll` open, so the relative order of chats with equal `createdAt` is not fixed. The insertion sort is stable, as the array sort is.
- The array sort is modelled by a functional insertion sort, not by the in-place algorithm of the engine.
- Strings, ChatStore.AutoTitle, Utils.Truncate and Search.Snippet: lengths and positions count Unicode scalar values, while JavaScript counts UTF-16 code units. Text inside the Basic Multilingual Plane is measured alike, but a character outside it (an emoji, say) counts once here and twice in the program, so such text is cut at 50 characters and windowed around a match differently from the program.
- Strings.ToLower: maps ASCII letters only. Characters whose case mapping changes the string length are not modelled, so a snippet window misaligned by such a mapping is not captured.
- Settings numbers (`temperature`, `topP`, `maxTokens`) are opaque `real` values. No arithmetic is done on them.
- `loadSettings` and `saveSettings` are not part of this model. The loaded record is a constructor parameter, and the saved records are a log field.
- `StreamOptions` is declared but never used, and no sampling options are sent.
- `regenerateLastResponse`, `clearChat`, `renameChat`, `duplicateChat`, `setSearchQuery`, `searchQuery`, `searchResults`, `loadSettings`, `saveSettings` and `clearAllChats` are used by components or imported, but their definitions are not part of this model.
