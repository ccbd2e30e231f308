# coc-pilot: the JSON-RPC client and the completion memo, in Dafny

coc-pilot is a coc.nvim extension. It talks to the Copilot language server over
the server's standard input and output, using JSON-RPC 2.0 with
`Content-Length` framing. This project models two parts of its code and proves
properties about the model.

**The RPC client of `src/copilot.ts`**

- Outbound framing. `sendMessage` adds `jsonrpc: "2.0"` with an object spread. It measures the JSON text with `Buffer.byteLength` and writes `Content-Length: N\r\n\r\n<json>`.
- Correlation. The module-level counter `requestId` is pre-incremented for every request. The new id is registered in `resolveMap` and `rejectMap`. `handleReceivedPayload` calls the registered function and deletes its entry.
- Inbound chunking. The `data` handler splits each chunk on the header pattern, drops the empty pieces, and parses every piece with `JSON.parse`. A piece that does not parse is skipped. Every other piece is handled in order, until one parses to a primitive, which ends the handler.

**The completion side of `src/index.ts`**

- `transformResultsToCompletions` turns each inline item of the server into an editor completion item.
- The one-entry memo `state` stores the last position, document version and results. Both the completion provider and the `CursorHold` handler consult it before asking the server.

Files and modules:

| file | module | content |
|---|---|---|
| `jstext.dfy` | `JsText` | JavaScript strings as UTF-16 code units; the UTF-8 byte length `Buffer.byteLength` computes; the decimal text of a number |
| `json.dfy` | `Json` | JSON values, and objects as ordered member lists; `obj[key]`, `key in obj` and `{ ...obj, key: v }` |
| `framing.dfy` | `Framing` | the frame `sendMessage` builds; `split(/Content-Length: \d+\r\n\r\n/)` and `filter((s) => s)` |
| `rpc.dfy` | `Rpc` | the messages, `handleReceivedPayload` as a function of the two maps, the `data` handler's loop as a function, and the class `RpcClient` holding the counter, the maps, the frames written and the calls made |
| `completion.dfy` | `Completion` | the item transformation, the request both callers send, and the class `ExtensionState` for `state` |

Modelling choices:

- A JavaScript string is a sequence of UTF-16 code units, so it can hold lone surrogates. Its UTF-8 length follows Node: a surrogate pair takes 4 bytes. A lone surrogate takes 3 bytes, because it is written as U+FFFD.
- `JSON.stringify` and `JSON.parse` are not modelled. The client holds them as a `Codec` of two function values: `stringify` is total, and `parse` returns None where it would throw. Only `FrameDelivered` relies on a property of them: it requires the round trip `parse(stringify(v)) == Some(v)` for the one value `v` it sends. The real functions give it for a value whose objects have pairwise different member names, with integer-like names first in ascending order, as `JSON.parse` builds them. That lemma also requires the text `stringify(v)` to be non-empty and free of headers. `JSON.stringify` output always meets both, because it is never empty and writes no raw CR or LF.
- JSON objects keep their members in order. `Lookup` finds the last member with a name, which is the member `JSON.parse` keeps for duplicate names. The spread `{ ...data, jsonrpc }` replaces an existing `jsonrpc` member in place, or appends one as the last member.
- A promise is not modelled. Calling its `resolve` or `reject` function is recorded as an `Invocation` in the client's `invocations` log.
- `"id" in payload` throws a TypeError when the parsed value is `null`, a boolean, a number or a string. That exception is outside the `try` block, so it leaves the `data` handler: the rest of the chunk is not handled. The model records this as `threw` / `aborted`.
- A `Map` lookup with `payload.id` finds an entry only when the id is a number equal to a key. The model allows keys of non-negative integers only.
- An answer the code awaits is a parameter of the method that awaits it: `reply`. None means the promise never resolves or is rejected: in both cases nothing after the `await` runs, since a rejection makes the `await` throw.
- Editor types are reduced to the fields the code reads. A document is its `uri` and `version`. A position is its `line` and `character`.

Behaviour of the code that the model keeps as it is:

- The code keeps no buffer across chunks. It never reads the declared length, and it cuts wherever the header pattern matches.
- The code has no notification handler: a payload without an id is ignored.
- The code rejects nothing when the connection closes.
- A response `{ id, result }` deletes only the resolver. The id's rejecter stays in `rejectMap`, so a later `{ id, error }` for the same id still calls it.
- The cursor handler stores the server's raw items in `lastResults`, not completion items. So the provider can later return those raw items on a repeat. The model keeps both kinds, in `Results`.

## Model

| member | source | states |
|---|---|---|
| JsText.Utf8Len | src/copilot.ts:15 | the UTF-8 byte length of a string lies between its number of code units and three times that number |
| JsText.Utf8LenVersusCodePoints | src/copilot.ts:15 | the declared length is at least the number of code points, and equals it exactly when every code point is below 0x80 |
| JsText.Utf8LenVersusCodeUnits | src/copilot.ts:15 | the byte length equals the string's `length` exactly for ASCII text |
| JsText.Decimal | src/copilot.ts:16 | `${n}` of a non-negative integer is a non-empty run of decimal digits with no leading zero |
| JsText.DecimalRoundTrip | src/copilot.ts:16 | reading the digits of `${n}` back gives `n` |
| Json.Lookup | src/copilot.ts:36-47 | `obj[key]` is the value of a member with that name, and there is one exactly when the name is among the object's keys |
| Json.LookupIsLast | src/copilot.ts:38-46 | the member found is the last one with that name: no later member has it |
| Json.Has | src/copilot.ts:36-43 | `key in obj` holds exactly when some member has that name |
| Json.Set | src/copilot.ts:14 | the spread keeps the key order when the key exists, and appends the member last otherwise |
| Json.LookupSetSame | src/copilot.ts:14 | after the spread, the key reads back as the value set |
| Json.LookupSetOther | src/copilot.ts:14 | the spread leaves every other key's value unchanged |
| Framing.DigitEnd | src/copilot.ts:56 | `\d+` extends over every digit that follows, up to the first non-digit |
| Framing.FindHeader | src/copilot.ts:56 | the match found is the leftmost one, or there is no match at all |
| Framing.Split | src/copilot.ts:56 | the split gives at least one piece, and no piece contains a match |
| Framing.SplitRebuilds | src/copilot.ts:56 | the split loses nothing but the matches: the chunk is the first piece followed by frames whose digit runs are non-empty and whose bodies are the other pieces, in order |
| Framing.DropEmpty | src/copilot.ts:57 | the filter keeps exactly the non-empty pieces and never adds any |
| Framing.DropEmptyConcat | src/copilot.ts:57 | the filter works piece by piece: filtering a concatenation concatenates the filtered parts, so order and repeats are kept |
| Framing.DropEmptyOne | src/copilot.ts:57 | a single piece is kept exactly when it is not empty |
| Framing.Payloads | src/copilot.ts:55-57 | every payload text of a chunk is non-empty and contains no header |
| Framing.HeaderOfFrame | src/copilot.ts:14-16 | the header of a frame matches the pattern at its start, and the match ends where the JSON text begins |
| Framing.PayloadsOfStream | src/copilot.ts:55-57 | a chunk made of frames with non-empty, header-free bodies yields exactly those bodies, in order, whatever lengths the headers declare |
| Framing.PayloadsOfFrame | src/copilot.ts:55-57 | the frame `sendMessage` writes for one non-empty, header-free JSON text yields exactly that text |
| Framing.DeclaredLength | src/copilot.ts:16 | a length is declared exactly when the text starts with a header |
| Framing.DeclaredLengthIsByteLength | src/copilot.ts:14-16 | the length a frame declares is the UTF-8 byte length of its JSON text |
| Rpc.Envelope | src/copilot.ts:14 | the message is an object whose `jsonrpc` is `"2.0"` |
| Rpc.RequestEnvelope | src/copilot.ts:14-24 | a request's members are id, method, params and jsonrpc, in that order, and its `id` reads back as the id it was built with |
| Rpc.NotificationEnvelope | src/copilot.ts:14-32 | a notification has method, params and jsonrpc, and no `id` |
| Rpc.MapKey | src/copilot.ts:38-44 | `Map.get(payload.id)` can only find a key when the id is that number, and a non-negative integer id is always looked up |
| Rpc.HandlePayload | src/copilot.ts:35-51 | a payload throws exactly when it is a primitive; it calls at most one function; the maps only lose entries; if it calls none the maps stay; if it calls one, that function was registered and only its entry is deleted |
| Rpc.ResultResolves | src/copilot.ts:37-42 | `{ id, result }` for a registered id calls that resolver once with the result and deletes only its key, even when `error` is present as well |
| Rpc.ErrorRejects | src/copilot.ts:43-48 | `{ id, error }` without `result`, for a registered id, calls that rejecter once with the error and deletes only its key |
| Rpc.UnmatchedIgnored | src/copilot.ts:36-50 | an object with no `id`, with neither `result` nor `error`, or with an id the relevant map lacks changes nothing and calls nothing |
| Rpc.PrimitiveThrows | src/copilot.ts:36 | a primitive payload throws before anything runs: nothing is called and both maps stay as they are |
| Rpc.ArrayIgnored | src/copilot.ts:36 | an array payload has no `id`: it changes nothing and calls nothing |
| Rpc.RejecterOutlivesResolve | src/copilot.ts:37-48 | after `{ id, result }` resolves an id, its rejecter is still registered, and a later `{ id, error }` for that id calls it |
| Rpc.SecondResultIgnored | src/copilot.ts:37-42 | once a response has resolved an id, a second `{ id, result }` response with the same id calls nothing |
| Rpc.StepShrinks | src/copilot.ts:59-67 | one text calls at most one function and only appends to the calls; the maps only lose entries; after a throw, or when the text does not parse, nothing changes |
| Rpc.ReceiveShrinks | src/copilot.ts:59-68 | a chunk of n payload texts calls at most n functions, and the maps only lose entries |
| Rpc.UnparsableSkipped | src/copilot.ts:61-65 | a piece that `JSON.parse` rejects has the same effect as no piece at all, so the pieces after it are still handled, in order |
| Rpc.ReceiveConcat | src/copilot.ts:59-68 | the pieces are handled in order: the second part of a chunk starts from the maps the first part left, unless the first part threw |
| Rpc.AbortedStays | src/copilot.ts:59-68 | once a piece has thrown, the pieces after it have no effect |
| Rpc.AtMostOnce | src/copilot.ts:35-51 | however many responses arrive, each function is called at most once, only while registered, and is deleted when called; the others stay registered |
| Rpc.FrameDelivered | src/copilot.ts:53-68 | receiving the frame of a serialized value that parses back to itself handles exactly that value |
| Rpc.RegisterBookkept | src/copilot.ts:24-28 | registering the next id keeps the client invariant: every issued function is either registered and uncalled, or called exactly once |
| Rpc.InvokeBookkept | src/copilot.ts:38-47 | calling a registered function and deleting it keeps the client invariant |
| Rpc.RpcClient.constructor | src/copilot.ts:9-11 | the counter starts at 0, the maps start empty, and nothing has been written or called |
| Rpc.RpcClient.SendMessage | src/copilot.ts:13-18 | exactly one frame is written: the `Content-Length` frame of the serialized message with `jsonrpc: "2.0"` |
| Rpc.RpcClient.SendRequest | src/copilot.ts:20-29 | the id is the counter after its increment; the frame carries that id; the same id, new to both maps, is registered in both; no function is called |
| Rpc.RpcClient.Register | src/copilot.ts:25-28 | the promise executor registers the resolver and rejecter under the new id and keeps the client invariant |
| Rpc.RpcClient.SendNotification | src/copilot.ts:31-33 | one frame without id is written; the counter, the maps and the calls stay as they are |
| Rpc.RpcClient.HandleReceivedPayload | src/copilot.ts:35-51 | the maps and calls after handling a payload are those given by `HandlePayload`, and the client invariant holds |
| Rpc.RpcClient.Invoke | src/copilot.ts:38-47 | the function is called once, its entry is deleted, and the client invariant holds |
| Rpc.RpcClient.OnData | src/copilot.ts:53-69 | one chunk has the effect `Receive` gives on its payload texts, and the client invariant holds |
| Rpc.RpcClient.HandleTexts | src/copilot.ts:59-68 | the loop's effect is `Receive` over the texts, and it stops when a payload throws |
| Rpc.RpcClient.HandleText | src/copilot.ts:60-67 | one iteration: a text that does not parse changes nothing; otherwise the payload is handled |
| Completion.FirstLine | src/index.ts:219 | the label is a prefix of the inserted text with no line feed, followed in the text by a line feed or by nothing |
| Completion.FirstLineUnique | src/index.ts:219 | any prefix with those properties is the label |
| Completion.FirstLineWhole | src/index.ts:219-220 | the label is the whole text exactly when the text has no line feed |
| Completion.ToCompletion | src/index.ts:217-226 | the label is the inserted text up to its first line feed: an LF-free prefix followed by a line feed or by the end. There is a detail exactly when the text holds a line feed, which is exactly when the label is not the whole text, and the detail is then the text. The sort text is three spaces and then the text; the edit inserts the text over the server's range; the kind is Snippet |
| Completion.TransformResults | src/index.ts:214-227 | one completion item per server item, with the same length and order |
| Completion.TransformConcat | src/index.ts:217 | the transformation distributes over concatenation |
| Completion.CompletionParams | src/index.ts:101-106 | the request carries the document version and uri |
| Completion.CursorPosition | src/index.ts:184 | the one-based cursor becomes zero-based: both coordinates are one less |
| Completion.Remembers | src/index.ts:92-97 | the field-by-field comparison both callers make (also src/index.ts:186-191) holds exactly when the position and the document, uri and version, are the ones stored last |
| Completion.InitialRemembersNothing | src/index.ts:22-26 | the initial memo matches no zero-based position and no cursor on line 1 or later |
| Completion.ExtensionState.constructor | src/index.ts:22-26 | the memo starts at line -1, character -1, an empty uri, version -1, and no results |
| Completion.ExtensionState.ProvideCompletionItems | src/index.ts:88-122 | a repeat returns the stored results and sends nothing; otherwise one request goes out; once it is answered, the transformed items are returned and stored with the position and document |
| Completion.ExtensionState.OnCursorHold | src/index.ts:182-211 | with no document, or on a repeat, nothing is sent or stored; otherwise one request goes out, and its answer's raw items are stored with the position and document |

## Left out

- Spawning the server process (src/copilot.ts:4-7): the model starts from a connected client.
- Writing to the server's standard input (src/copilot.ts:17): the written text is appended to `written`.
- The subscription to standard output (src/copilot.ts:53): `OnData` takes a chunk that has already been decoded to a string.
- Decoding `Buffer` bytes with `toString("utf-8")` (src/copilot.ts:54): it is a foreign library call.
- The internals of `JSON.stringify` and `JSON.parse`: they are foreign library calls. The model takes them as parameters, and requires the round trip where a lemma needs it.
- JSON numbers and the request counter `requestId` are integers: floating point is not modelled, so the model does not capture that `++requestId` stops increasing past 2^53.
- Promises and the event loop: the other handlers that may run between sending a request and its answer are not modelled. The awaited answer is a parameter.
- `console.error` for a piece that does not parse (src/copilot.ts:64): it is I/O.
- `activate` (src/index.ts:21-87, 123-179): the start-up requests, the document subscriptions, the sign-in and sign-out commands, the messages shown and the registration with coc.nvim are editor I/O. They only forward calls to `sendRequest` and `sendNotification`.
- The cast `as { items: CopilotInlineCompletionItem[] }` (src/index.ts:106, 200) is not checked at run time. The model takes the answer's items directly, as a `seq<InlineItem>`.
- Completion.CompletionParams: its contract names the version and uri members only; the position and the trigger kind (`Invoked`, 1) are fixed in its body and reach the frame through it.
- A cross-chunk decode buffer, a check of the declared length, a notification handler, duplicate-id errors and a drain on disconnect: none of these exists in the code, so none is modelled.
