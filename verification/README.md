# messenger-api: the room registry and message pipeline, in Dafny

This project models the core of a small chat relay written in TypeScript.
Clients connect over Socket.IO, subscribe to numbered chats, and post
messages. A message is validated, stored, and then emitted to every socket
subscribed to its chat. History is read back through a query whose options
are built from the request.

The model covers `src/api.ts` and the value predicates of `src/util.ts`:

- **JsValue** (`js_value.dfy`): a small datatype of JavaScript values. It
  defines `isInteger`, `isEmpty` (`x?.length === 0`) and ramda's
  `is(String)` as functions over those values.
- **JsArray** (`js_array.dfy`): `findIndex`, `filter` and `splice`, the
  array primitives the registry is built from. Each follows JavaScript's
  semantics, including `splice`'s negative start.
- **Messages** (`messages.dfy`): the `Message` row with `body`, `chat`,
  `user` and the optional store-generated `id` and `sent`.
- **Validation** (`validation.dfy`): `validateMessage`. It checks four
  things in a fixed order, and the first failed check decides the error.
- **Registry** (`registry.dfy`): the two in-memory stores. One is the user
  list keyed by socket id; the other maps each chat id to an ordered member
  list. It also defines `createUser`, `countUsers`, `findOrCreateChat`,
  `findChat`, `findUser`, `chatContainsUser`, `addUserToChat` and
  `disconnectUser` as pure functions from the stores before to the stores
  after.
- **History** (`history.dfy`): the `{take, order, where}` options that
  `getMessages` builds.
- **Relay** (`relay.dfy`): `sendMessage`, modelled as four steps. It
  validates, saves (the store's answer is a parameter), finds or creates
  the chat, and emits to the members. The observable effects are recorded
  in order.

`Registry.Valid` is the invariant the stores keep:

- one user entry per socket;
- every chat stored under its own id;
- no socket listed twice in a chat.

Every transition preserves it.

Behaviour of the code worth knowing, all of it modelled as written:

- On disconnect, the socket is not removed from the chats it joined.
- `createUser` returns nothing when it creates a user.
- A `chat` filter in `getMessages` replaces a `user` filter rather than
  combining with it.
- The 30-day age bound is computed but never applied.
- Failures in `sendMessage` are swallowed and the caller gets `undefined`.

## Model

| member | source | states |
|---|---|---|
| JsValue.IsInteger | src/util.ts:9 | Holds only for numbers, and then exactly for finite numbers equal to an integer; every integer passes, and strings such as "1" fail |
| JsValue.AsInt | src/api.ts:56 | An integral number is exactly the number of the integer read from it |
| JsValue.IsEmpty | src/util.ts:10 | A string or array is empty exactly when its length is 0, and an object exactly when its `length` property is the number 0; null, undefined, booleans and numbers are never empty, because `?.length` yields undefined, which is not `=== 0` |
| JsValue.IsString | src/util.ts:18 | True exactly for string values; false for numbers, arrays, objects, null and undefined |
| JsArray.FindIndex | src/api.ts:66 | The result is -1 exactly when no element satisfies the predicate, and otherwise the first index that does |
| JsArray.Filter | src/api.ts:96 | The result contains exactly the elements that satisfy the predicate, and is no longer than the input |
| JsArray.FilterCounts | src/api.ts:96 | Every satisfying element is kept as many times as it occurs, and every other element is dropped |
| JsArray.FilterConcat | src/api.ts:96 | Filtering keeps order: the result for a concatenation is the result for the first part followed by the result for the second |
| JsArray.Splice | src/api.ts:111 | Removing at an index in range shifts the later elements down by the count; a start of -1 on a non-empty array removes the last element; nothing is added |
| Validation.ValidateMessage | src/api.ts:50-58 | Fails with the user error exactly when `user` is not an integer, then the chat error, then the body-type error, then the empty-body error; on success the message has the inputs' body, user and chat and no id or timestamp |
| Validation.ValidateRoundTrip | src/api.ts:50-58 | Validating the fields of any unsaved message with a non-empty body gives back that message |
| Validation.ValidateFirstFailureDecides | src/api.ts:52-55 | The error reported is the one whose check fails while every earlier check passes, and no other |
| Validation.ValidateSucceedsIffAllPass | src/api.ts:52-56 | Validation succeeds if and only if all four checks pass |
| Registry.InitialValid | src/api.ts:61-62 | The stores start empty and valid, so every state the operations reach from them is valid |
| Registry.CountUsers | src/api.ts:72 | In valid stores `countUsers` is the number of distinct connected sockets |
| Registry.CreateUser | src/api.ts:65-69 | A registered socket leaves the stores unchanged and its entry is returned; a new socket is appended at the end and nothing is returned; afterwards the socket is registered, and validity is kept |
| Registry.CreateUserIdempotent | src/api.ts:65-69 | A second `createUser` for the same socket changes nothing and returns the stored entry |
| Registry.CreateUserCount | src/api.ts:65-72 | `countUsers` grows by one for a new socket and by zero for a known one |
| Registry.FindOrCreateChat | src/api.ts:75-78 | Afterwards the chat exists and is the one returned, with id equal to the requested id; an existing chat is returned untouched with the stores unchanged; a new chat is empty; other chats and the users do not change |
| Registry.FindOrCreateChatIdempotent | src/api.ts:75-78 | A second find-or-create of the same chat changes nothing and returns the same chat |
| Registry.FindChatAsWritten | src/api.ts:81-85 | As written, `findChat` never finds a chat, whatever keys `_.keys` lists, because a string key is never `===` a number |
| Registry.FindChatAsWrittenMissesExistingChat | src/api.ts:81-85 | After chat 42 is created, `findChat(42)` as written still returns null |
| Registry.FindChat | src/api.ts:81-85 | The intended lookup returns a chat exactly when the id is stored, and then the chat with that id |
| Registry.FindChatAfterFindOrCreate | src/api.ts:75-85 | The intended `findChat` returns the chat that `findOrCreateChat` produced, with its prior members |
| Registry.FindUser | src/api.ts:88-92 | Returns an entry exactly when the socket is registered, and that entry is for that socket; otherwise null |
| Registry.FindUserAfterCreate | src/api.ts:65-92 | After `createUser`, `findUser` returns the socket's entry |
| Registry.ChatContainsUser | src/api.ts:95-96 | True exactly when some member of the chat has the user's socket id |
| Registry.AddUserToChat | src/api.ts:99-106 | Fails exactly when the socket is already a member, and then leaves the stores unchanged; otherwise the user is appended to the chat's members, which is created if absent; other chats and the users do not change; validity is kept |
| Registry.AddUserToChatCount | src/api.ts:99-106 | A successful subscription adds exactly one member and a failed one adds none |
| Registry.AddUserToChatTwiceFails | src/api.ts:99-106 | Subscribing the same socket twice fails the second time with the stores as the first call left them |
| Registry.DisconnectUser | src/api.ts:109-113 | Chat member lists are unchanged; a non-empty user list loses exactly one entry; no entry is invented; validity is kept |
| Registry.DisconnectRegistered | src/index.ts:80-88 | For a registered socket (what the disconnect handler checks first) the result is the user list with exactly that socket's entry filtered out, the others in order |
| Registry.DisconnectUnknownRemovesLast | src/api.ts:110-111 | For an unregistered socket the index is -1, and `splice(-1, 1)` removes the last user |
| Registry.DisconnectKeepsMemberships | src/api.ts:109-113 | A disconnected socket stays listed in every chat it had joined |
| History.GetMessagesOptions | src/api.ts:115-127 | `take` is always 100; `order.sent` is `sort`, or -1 when missing; `where` is the chat when `chat` is truthy, else the author when `user` is truthy, else empty |
| History.QuerySelects | src/api.ts:125-127 | A truthy chat selects exactly that chat's messages whatever `user` is; otherwise a truthy user selects exactly that author's messages; otherwise every message is selected |
| History.ChatZeroIsIgnored | src/api.ts:126-127 | A `chat` of 0 is falsy, so an author filter applies instead |
| Relay.EmitAll | src/api.ts:157 | Emits once per member, in member order, to that member's socket |
| Relay.SendMessage | src/api.ts:137-164 | If validation fails, nothing is saved or emitted and the result is undefined. Otherwise the save comes first and every later effect is an emit. If the save fails, nothing is emitted and the result is undefined. A message is returned exactly when validation and the save both succeed; then the chat exists and the emitted sockets are exactly its members. After the save, the effects are exactly one emit per member of the chat, in member order. The only chat that can be added is the message's own, and a failed send adds none. The returned message carries the inputs and the store's id and timestamp. No existing chat or user changes, and validity is kept |
| Relay.BadBodyIsDropped | src/api.ts:141-147 | An empty or non-string body means no save and no emit |
| Relay.ConnectThenSubscribe | src/test.ts:14-24 | A socket that connects and subscribes to chat 1 is its only member, and the subscription succeeds |
| Relay.SubscribeThenSend | src/test.ts:21-56 | Continuing from `ConnectThenSubscribe`, the socket that subscribed to chat 1 receives, after the save, the message with the body, chat and author it was sent with and with the store's id and timestamp set |

## Findings

| source | as written | input that shows it | evidently intended | confidence | as-written member | corrected member |
|---|---|---|---|---|---|---|
| src/api.ts:81-85 | `findChat` compares each string key of `chats` with the numeric `chatId` using `===`, which is never true, so it always returns null; had a key matched, it would read `chats[index]`, the key's position, not the key | any stores in which chat 42 exists, then `findChat(42)` | return the chat stored under `chatId`, or null when there is none | high (not executed) | Registry.FindChatAsWritten, with Registry.FindChatAsWrittenMissesExistingChat | Registry.FindChat, with Registry.FindChatAfterFindOrCreate |

## Left out

- Socket.IO and Express wiring, body parsing and the status endpoint (`src/index.ts`) are transport plumbing. Only the disconnect handler's guarantee is used, as the requires of `Registry.DisconnectRegistered`.
- `Registry.DisconnectUser` has no precondition: `disconnectUser` itself accepts any socket. The caller's guarantee that the socket is registered is stated on `Registry.DisconnectRegistered`, and the unregistered case is stated on `Registry.DisconnectUnknownRemovesLast`.
- `src/client.ts` and `src/test.ts` are a network client and a live-socket script. Only the scenario of the test script is restated: connecting and subscribing as `Relay.ConnectThenSubscribe`, and the message sent afterwards as `Relay.SubscribeThenSend`.
- Persistence is abstract. A save is modelled only by its outcome, as the `SaveOutcome` parameter. A query is modelled only by the options record it receives, and `Selects` gives the meaning of its `where` part. Limiting and ordering by the store are not modelled.
- Socket emission is recorded as `Emit` effects. Delivery is not modelled.
- The 30-day date in `getMessages` depends on the clock and is never used. Generation of the `sent` timestamp belongs to the store, which passes it in through `SaveOutcome`.
- `parseInt` is a function parameter of `Relay.SendMessage` with no assumed behaviour.
- Logging is left out. The texts of the errors that `validateMessage` throws are recorded as `ValidationError.Text`.
- JsValue.IsInteger: numbers are exact reals, so IEEE-754 rounding is not modelled. For example, a literal too precise to hold a fraction counts as an integer in JavaScript.
- JsValue.IsString: `String` wrapper objects (`new String("x")`) and objects whose own `constructor` property is `String` are not part of the value datatype. Ramda's `is(String)` accepts them.
- JsValue.IsEmpty: functions, whose `length` is their arity, are not part of the value datatype.
- History.GetMessagesOptions: `chat` and `user` are optional integers, so a NaN request field is not modelled. A NaN field would be falsy, like 0.
- History.GetMessagesOptions: `sort` is an optional integer, with a missing field read as -1. The default applies only to `undefined`, and the HTTP handler does not validate `sort`. So an explicit `null`, a string such as `"ASC"`, or any other JSON value reaches `order.sent` unchanged, and that is not modelled.
- Property keys of `chats` are modelled as integers. JavaScript turns them into strings, so a non-number `chatId` sent to `subscribe` (which the transport does not validate) could alias a numeric one. The as-written `findChat` takes the key list `_.keys` returns as a parameter: every list of string keys gives the same result.
- Concurrency: the source has no concurrency control. Every operation is modelled as one atomic step.
