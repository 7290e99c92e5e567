# Anonymous-Chat server core, modelled in Dafny

This project models the real-time core of the Anonymous-Chat server (`server.js`).
The server keeps two dictionaries that are meant to stay in step:

- `users` maps a socket id to `{ username }`;
- `sockets` maps a username to a socket id.

Four socket.io handlers read or change them and emit events:

- `register` binds a socket and a name;
- `disconnect` removes a registered socket;
- `message` broadcasts a chat line;
- `private-message` sends a line to the socket that a name maps to.

The model also covers the name generator `generateUsername` and the table rules of the `/register` and `/login` endpoints.

Files:

- `wrappers.dfy`: `Option`.
- `names.dfy` (module `Names`): the generator. `FirstFree` states what the retry loop returns, and lemmas prove it is the first free candidate.
- `chat.dfy` (module `Chat`): the registry as a value. Each handler is a pure step from the registry to the new registry plus the events it emitted. `Run` chains steps over a sequence of inbound events. The lemmas state the invariants and where they fail.
- `accounts.dfy` (module `Accounts`): the `userDatabase` rules. bcrypt is abstracted: the digest (or a failure) is a parameter, and `compare` is an uninterpreted function.
- `server.dfy` (module `Server`): class `ChatServer` holds the module-level state of `server.js`. Its methods update the fields in place, and each `ensures` ties the new state and the new outbox entries to the pure step.

Node runs each handler to completion on one thread, so each handler is one atomic step.
`Step` dispatches an inbound event to its handler, and `Run` applies handlers one after another.
The client's `online-users` handler (script.js:61-63) replaces its roster list with the payload. `Saw` models that rule, and `LatestRoster` applies it over a stream of events.
The `/register` handler awaits `bcrypt.hash` between its checks and its write, so it is two steps: `RegisterCheck` and `RegisterComplete`.
`OverlappingRegistrationsBothSucceed` shows what the code then does: two overlapping requests for one new e-mail both succeed, and the second write replaces the first account.

`Object.keys(sockets)` lists keys in insertion order, and reassigning an existing key keeps its place.
The field `order` holds that order. `Valid` says it lists every key of `sockets` exactly once.

Behaviour of server.js that the model keeps as it is:

- `register` does not refuse a name another socket holds; it takes `sockets[name]`.
- Re-registering a socket leaves its old name in `sockets`.
- `user-joined` is broadcast to everyone, the joiner included.
- The server never emits the `username` event that script.js listens for (`EventName` never yields it).
- The server broadcasts empty message bodies. Only the client's form handler skips them.
- `generateUsername` never gives up; it loops until a candidate is free.
- `/register` stores the generated name without comparing it with the usernames of existing accounts.

`RegisterPairedIff` states the real invariant. From inverse maps (`Paired`), a registration keeps them inverse exactly when it is clean: the socket held no other name, and no other socket held this name. `RunKeepsPaired` shows that inverse maps stay inverse over every clean run.
`SharedNameDropsLiveUser` and `ReRegisterLeavesStaleName` show the concrete failures.

## Model

| member | source | states |
|---|---|---|
| `Names.LetterIndex` | server.js:65 | `Math.floor(r * chars.length)` for `r` in [0, 1) is always a valid index into the 26-letter alphabet |
| `Names.Letter` | server.js:60-65 | one draw yields a lower-case letter `a`–`z` |
| `Names.Letters` | server.js:63-66 | the built string has one letter per draw, in draw order, each the letter of its draw |
| `Names.Attempt` | server.js:63-66 | every candidate has length 4 over `a`–`z` |
| `Names.FirstFree` | server.js:59-71 | a returned name has length 4 over `a`–`z` and is not among the live names |
| `Names.FirstFreeProperties` | server.js:62-70 | the loop returns the first candidate not in `sockets`; it returns nothing exactly when every candidate the draws allow is taken |
| `Names.FirstFreeFrom` | server.js:62-70 | the retry loop, from attempt k on, returns only a 4-letter name that is not live, and returns nothing once the draws are used up |
| `Names.AllZeroDrawsGiveAaaa` | server.js:59-71 | with nobody online and every draw 0, the generator returns "aaaa" |
| `Server.ChatServer.GenerateUsername` | server.js:59-71 | the loop returns exactly `FirstFree` over the keys of `sockets`, so a 4-letter name not in `sockets`; it modifies nothing |
| `Chat.EventName` | server.js:170-211 | the server emits only `user-joined`, `user-left`, `online-users`, `message` and `private-message`; never `username` |
| `Chat.Recipients` | server.js:178-209 | `io.emit` reaches every live connection; `io.to(id).emit` reaches at most `id`, and reaches it exactly when it is live |
| `Chat.Without` | server.js:190 | `delete sockets[name]` removes that key from the key order and no other key, and keeps the keys distinct |
| `Chat.WithoutKeepsPlaces` | server.js:190 | deleting a key leaves every other key in its relative place |
| `Chat.OnRegister` | server.js:173-183 | afterwards `users[s].username == u` and `sockets[u] == s`, and no other entry changes; a new name goes to the end of the key order, an existing one keeps its place; the outbox gains exactly `user-joined(u)` then `online-users` with the keys after the update; the key-order invariant is kept |
| `Chat.OnDisconnect` | server.js:186-196 | an unregistered socket changes nothing and emits nothing; a registered one loses exactly its `users` entry and its name's `sockets` entry, then `user-left(name)` and the new roster are broadcast; the socket has no `users` entry afterwards |
| `Chat.OnMessage` | server.js:198-203 | the maps never change; it emits exactly when the sender is registered, and then exactly one broadcast `{user: users[s].username, text}` |
| `Chat.OnPrivateMessage` | server.js:205-211 | the maps never change; it emits exactly when the sender is registered and `sockets[to]` exists, and then exactly one `{from, message}` addressed to `sockets[to]` |
| `Chat.Step` | server.js:170-211 | one inbound event runs its handler: the key-order invariant is kept, `message` and `private-message` leave the maps alone, at most two events go out, and only a `private-message` emits to a single socket |
| `Chat.Run` | server.js:170-211 | handlers run one at a time over an event sequence, emitting at most two events per inbound event |
| `Chat.RunAppend` | server.js:170-211 | running two event sequences one after the other is running their concatenation; the outboxes concatenate in order |
| `Chat.RunDirectsOnlyPrivate` | server.js:178-209 | over any run, every emit addressed to one socket carries a private message; all other events are broadcasts |
| `Chat.RunKeepsValid` | server.js:173-211 | over any sequence of events, `order` keeps listing every key of `sockets` exactly once |
| `Chat.StepRosterIsKeys` | server.js:182 | every `online-users` payload is a broadcast of the key order after the update, duplicate-free, naming exactly the keys of `sockets` |
| `Chat.Saw` | script.js:61-63 | a client replaces its roster on an `online-users` broadcast and keeps it on every other event |
| `Chat.LatestRoster` | script.js:61-63 | the roster a client holds is its starting one when no `online-users` broadcast arrived, and otherwise the payload of one it received |
| `Chat.StepLatestRoster` | server.js:182-193 | after one handler, a client that saw its broadcasts holds the new key order |
| `Chat.RosterNeverStale` | server.js:182-193 | over any sequence of events, a client that saw every broadcast holds exactly the current key order of `sockets` |
| `Chat.RegisterPairedIff` | server.js:173-176 | from inverse maps, `register` keeps them inverse if and only if the socket held no other name and no other socket held this name |
| `Chat.DisconnectKeepsPaired` | server.js:186-191 | `disconnect` always keeps inverse maps inverse |
| `Chat.RunKeepsPaired` | server.js:173-211 | the maps stay inverse over every run whose registrations are all clean |
| `Chat.PairedRosterIsRegistered` | server.js:182 | while the maps are inverse, the roster is exactly the names of registered sockets |
| `Chat.SharedNameDropsLiveUser` | server.js:173-196 | after "a" and "b" both register "bob" and "a" leaves, "b" is still in `users` but off the roster, and a private message to "bob" goes nowhere |
| `Chat.ReRegisterLeavesStaleName` | server.js:173-211 | after "a" registers "bob" then "carl" and leaves, "bob" stays on the roster still pointing at "a"; when "c" then registers "dan" and sends "bob" a private message, it is addressed to the departed "a" |
| `Chat.JoinerHearsOwnJoin` | server.js:178 | the live joiner receives its own `user-joined` |
| `Chat.MessageReachesEveryone` | server.js:201 | a chat line from a registered socket reaches every live connection, the sender included, attributed to the sender's name |
| `Chat.PrivateReachesOnlyTarget` | server.js:207-209 | a private message reaches no connection other than `sockets[to]`, which carries the name `to` while the maps are inverse |
| `Server.ChatServer.constructor` | server.js:28-57 | the socket maps start empty and the table is what was loaded from disk |
| `Server.ChatServer.OnRegister` | server.js:173-183 | updates `users`, `sockets`, the key order and the outbox in place, exactly as `Chat.OnRegister` |
| `Server.ChatServer.OnDisconnect` | server.js:186-196 | deletes in place and emits exactly as `Chat.OnDisconnect` |
| `Server.ChatServer.OnMessage` | server.js:198-203 | only appends to the outbox, exactly as `Chat.OnMessage` |
| `Server.ChatServer.OnPrivateMessage` | server.js:205-211 | only appends to the outbox, exactly as `Chat.OnPrivateMessage` |
| `Accounts.CheckRegistration` | server.js:85-93 | it goes on exactly when e-mail and password are both non-empty and the e-mail is not in the table; otherwise status 400, with "Email and password are required" exactly for a missing field and "Email already registered" exactly for a known e-mail |
| `Accounts.CompleteRegistration` | server.js:95-113 | a failed hash answers 500 and writes nothing; otherwise exactly one entry, keyed by the e-mail and holding the digest and the generated name, is added and no other entry changes |
| `Accounts.Register` | server.js:84-114 | `/register` run with nothing in between: a success requires present fields and a new e-mail, adds exactly that e-mail and stores the username it answers; every other outcome leaves the table unchanged and fails with 400 or 500, or gives no answer |
| `Accounts.RegisterAddsAtMostOne` | server.js:84-114 | `/register` succeeds exactly for present fields, a new e-mail, a hash that succeeded and a name that was generated; it then adds exactly that e-mail and answers the stored name; otherwise the table is unchanged |
| `Accounts.SequentialDuplicateRefused` | server.js:91-93 | once a registration has completed, a second one for the same e-mail is refused with 400 |
| `Accounts.GeneratedNameMayRepeatAccount` | server.js:67-104 | the stored name is checked only against live `sockets`: when the generator returns an existing account's username, the new account succeeds with that same username |
| `Accounts.DuplicateUsernameExample` | server.js:67-104 | with one account named "aaaa", nobody online and all draws 0, a new e-mail is also stored with username "aaaa" |
| `Accounts.OverlappingRegistrationsBothSucceed` | server.js:91-104 | two requests for one new e-mail that both pass the check before the await both succeed, and the later write wins |
| `Accounts.Login` | server.js:117-141 | succeeds exactly for present fields, a known e-mail and a password that compares true, answering the stored username; 400 "Email and password are required" exactly for a missing field; 401 "Invalid email or password" exactly for an unknown e-mail or a mismatching password; 500 "Login failed" exactly when the compare throws |
| `Server.ChatServer.RegisterCheck` | server.js:85-93 | reads the table and returns exactly `CheckRegistration`'s early reply |
| `Server.ChatServer.RegisterComplete` | server.js:95-113 | writes the table exactly as `CompleteRegistration` with the name `generateUsername` returns; on success the name is 4 letters and not a live name |
| `Server.ChatServer.Login` | server.js:117-141 | reads the table only and answers exactly `Accounts.Login` |

## Left out

- Express: static serving, JSON and session middleware, cookies, and the routes `/`, `/chat`, `/api/user` and `/logout` (server.js:14-24, 73-81, 143-168). This is HTTP plumbing with no table or registry logic. `req.session.user = …` is not modelled.
- bcrypt: the digest of `bcrypt.hash`, or its failure, is a parameter (`Hashed`). `bcrypt.compare` is an uninterpreted function returning match, mismatch or a thrown error (`Verdict`).
- `loadUsers`, `saveUsers`, JSON and `fs` (server.js:31-53): file I/O. The loaded table is the constructor's parameter, and nothing is written to disk.
- `server.listen` and `PORT` (server.js:214-217): network start-up.
- `new Date().toISOString()`: the clock is the parameter `now`.
- `console.log`: it has no effect on state.
- `Math.random`: modelled as a finite oracle sequence `draws`, not as a distribution.
- `Server.ChatServer.GenerateUsername`: the source loop is synchronous and retries until a candidate is free. If every candidate were taken it would spin forever and block Node's only thread, so no other handler would ever run again. The model's None means only that the finite draws ran out; `RegisterComplete` then writes nothing and answers nothing, and the model goes on handling events. The hung server is not captured.
- `Names.LetterIndex`: `Math.random() * 26` is computed over exact reals. Floating-point rounding is not modelled.
- socket.io transport: delivery, rooms and reconnection are outside the model. `Recipients` takes as a parameter the set of connections that are live when an event is emitted.
- JavaScript object semantics that a `map` does not have:
  - properties inherited from `Object.prototype` (`constructor`, `toString`, `__proto__`, …) make lookups such as `sockets[to]` or `userDatabase[email]` truthy for those keys;
  - `Object.keys` lists keys that look like array indices first, in numeric order. Generated names are letters only, so this concerns only client-chosen names.
- Payloads that are not strings, which JavaScript coerces or on which its destructuring throws. The model types every payload as a string.
- `/login`: the table lookup happens before `await bcrypt.compare`, and the reply uses the record it captured. The model runs it as one step, which is equivalent because `/login` only reads.
- script.js and public/login.js: DOM rendering, the canvas animation, tab switching and `fetch` calls. Hiding the user's own name from the roster (script.js:64) is display logic and is not modelled. The roster replacement of script.js:61-63 is modelled by `Chat.Saw`.
