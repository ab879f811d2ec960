# Chat server session handler — a Dafny model

This project models the core of a small socket chat server. Each accepted
connection gets a `handle_client` thread (`server.py`). The thread reads
text chunks and dispatches each chunk as one of the following:

- a registration request (`server:register <name>`);
- a listing request (`server:who`);
- a farewell (`server:exit`);
- a directed message (`<recipient>:<body>`).

All threads share one `users` dictionary, which maps a registered name to
its socket. When a session ends, the `finally` block removes the session's
current name from that dictionary. When a requested name is taken,
`generate_unique_username` adds a random four-character alphanumeric
suffix to it.

The model has one pure function, `Server.Step`, that handles one received
chunk. It takes the registry, the session's `username` and the chunk, and
returns three things: the next state, the socket writes (each addressed to
a connection id), and whether the loop goes on. When the session ends,
`Step` has already applied the teardown. `Session.HandleClient` runs
`Step` over a finite list of chunks. Every random choice and every peer
write failure is an input.

Modules:

- `Wrappers`: `Option`.
- `Text`: the Python string operations the server relies on. These are
  `str.split()` on Unicode whitespace, `startswith`, `split(":", 1)`,
  `", ".join` and its inverse.
- `Users`: the `users` dictionary as an insertion-ordered list of
  `(name, connection)` entries. The order matters because Python dicts keep
  insertion order and the `server:who` reply lists names in that order.
  The module has lookup, insert-or-overwrite (`Put`) and delete (`Remove`).
- `Usernames`: the alphabet of the random suffix, a base-62 numbering of
  all 62^4 suffixes, and `GenerateUniqueUsername` as a choice among the
  free candidates.
- `Protocol`: the command words, reply texts and client request formats
  (`client.py` lines 46 and 63), with their round trips.
- `Server`: the step function and one lemma per branch.
- `Session`: the whole session, and the fact that one session changes no
  other connection's binding.

The code behaves as follows, and the model keeps each of these behaviours:

- A taken name is not refused. The server binds a suffixed name instead
  and replies "Username taken. You are registered as …"
  (`server.py:50-54`).
- A message to an unknown recipient gets `ERROR:Recipient not found.`
  (`server.py:83-84`).
- Nothing is locked. The model treats each step as atomic.
- Commands are matched with `startswith`, so `server:whoever` is a `who`
  request.
- A second `server:register` in the same session overwrites the local
  `username`. The first name then stays bound to the closed socket after
  teardown. The model keeps this behaviour; see
  `Server.ReRegisterLeavesStaleBinding`.
- A registered name may contain `:` (`server:register a:b` binds `a:b`),
  but a directed message is cut at its first `:`, so no directed message
  can reach such a user. A message to `server:who`, a name that can be
  registered, even starts with `server:who` and is answered as a `who`
  request. A directed message to a user named `server` whose text starts
  with `who`, `exit` or `register` is taken as that command.
- If `server:register` is not followed by a word, `split()[1]` raises
  `IndexError`. The generic `except` catches it, and the session ends
  through the `finally` teardown without a reply.

## Model

| member | source | states |
|---|---|---|
| Text.IsSpace | server.py:49 | definition, no contract: the characters Python's `str.split()` treats as whitespace |
| Text.StartsWith | server.py:48 | definition, no contract: `str.startswith`, as used for every command test |
| Text.Join | server.py:65 | definition, no contract: `sep.join(parts)` |
| Protocol.Welcome | server.py:58 | definition, no contract: the reply `Welcome <name>!` |
| Protocol.TakenNotice | server.py:54 | definition, no contract: the reply `Username taken. You are registered as <name>` |
| Protocol.WhoReply | server.py:66 | definition, no contract: the reply `Active users: ` followed by the names joined with `, ` |
| Protocol.Forward | server.py:80 | definition, no contract: the forwarded text `<sender>: <body>` |
| Protocol.RegisterRequest | client.py:46 | definition, no contract: the client's `server:register <name>` |
| Protocol.DirectRequest | client.py:63 | definition, no contract: the client's `<recipient>:<message>` |
| Usernames.IsSuffix | server.py:29 | definition, no contract: four characters from `ascii_letters + digits`, a possible value of `random.choices(..., k=4)` |
| Usernames.Qualify | server.py:30 | definition, no contract: `f"{base_name}_{suffix}"` |
| Server.HasUsername | server.py:60 | definition, no contract: Python truthiness of `username`, which is neither `None` nor empty |
| Server.SuffixFits | server.py:31 | definition, no contract: when the requested name is taken, the suffix is one at which the retry loop stops, because the suffixed name is free |
| Text.Words | server.py:49 | Python's `str.split()` with no argument: every token it returns is non-empty and contains no whitespace |
| Text.WordsOfJoin | server.py:49 | splitting words joined by single spaces gives back exactly those words |
| Text.IndexOf | server.py:73 | finds the first occurrence of a character, and reports none exactly when the character does not occur (the `":" not in message` test) |
| Text.SplitAtFirst | server.py:77 | `split(":", 1)` gives a head without `:` and a tail whose concatenation around the `:` is the original message |
| Text.SplitAtFirstOfJoined | server.py:77 | cutting `head + ":" + tail` at its first `:` gives back `head` and `tail` when `head` has no `:` |
| Text.SplitListOfJoin | server.py:65 | splitting a `", "`-joined list at its separators gives back the list when no item contains a space |
| Users.Names | server.py:65 | `users.keys()` in insertion order: one key per entry, at the same position |
| Users.Lookup | server.py:78 | `recipient in users` holds exactly when the name is one of the keys |
| Users.LookupAt | server.py:80 | in a registry with distinct names, `users[name]` is the connection stored with that name |
| Users.Put | server.py:57 | `users[name] = socket` binds the name to the socket and changes no other name's binding |
| Users.PutNames | server.py:53 | assigning a new key appends it to the listing order; reassigning an existing key leaves the order unchanged |
| Users.PutKeepsDistinct | server.py:17 | dictionary keys stay unique after an assignment |
| Users.Remove | server.py:88-89 | `del users[name]` unbinds the name, changes no other binding, and changes nothing when the name is absent |
| Users.RemoveKeepsDistinct | server.py:89 | dictionary keys stay unique after a deletion |
| Users.RemoveDeletesOneEntry | server.py:89 | deleting a present key removes exactly its entry and keeps the order of the others |
| Users.RemoveUndoesPut | server.py:88-89 | deleting a freshly added key restores the registry exactly, order included |
| Usernames.Ord | server.py:29 | every letter or digit of the suffix alphabet has an index below 62 that maps back to it |
| Usernames.DigitOrd | server.py:29 | an index below 62 maps to a suffix character whose index is that same number |
| Usernames.EncodeSuffix | server.py:29 | every number below 62^4 names a four-character alphanumeric suffix |
| Usernames.DecodeEncode | server.py:29 | decoding the suffix of a number below 62^4 gives back the number |
| Usernames.EncodeDecode | server.py:29 | every four-character alphanumeric suffix is the encoding of its decoding, so the numbering covers all suffixes |
| Usernames.QualifiedDistinct | server.py:30 | different numbers give different `base_XXXX` names for the same base |
| Usernames.Pigeonhole | server.py:28-32 | an injective naming of m candidates cannot have all m names inside a set of fewer than m names |
| Usernames.FreeSuffixExists | server.py:28-32 | with fewer than 62^4 registered names, some `base_XXXX` is free, so the retry loop can stop |
| Usernames.NameSet | server.py:31 | the set of keys that `new_username not in users` tests against |
| Usernames.GenerateUniqueUsername | server.py:19-32 | returns `base + "_" + s` where `s` is four ASCII letters or digits and the result is not a registered name |
| Protocol.WhoReplyRoundTrip | server.py:65-66 | the `Active users: ` reply determines the list: `Protocol.ParseWhoReply`, the model's own inverse of the reply (the client only prints it), recovers exactly the listed names, in order |
| Protocol.DirectRequestRoundTrip | client.py:63 | the server's `split(":", 1)` of the client's `recipient:message` gives back recipient and message when the recipient has no `:` |
| Protocol.RegisterRequestWords | client.py:46 | the client's `server:register <name>` starts with the command, and its whitespace split is the command followed by the words of the name |
| Protocol.DirectRequestIsNotCommand | client.py:63 | a directed message to a recipient whose name has no `:` and is not `server` never matches a `server:` command prefix |
| Protocol.ExitIsNotRegister | server.py:48-68 | a chunk that starts with `server:exit` does not start with `server:register` |
| Server.Teardown | server.py:88-89 | the `finally` unbinds the session's current name, changes no other binding, and changes nothing when the name is unset or already gone |
| Server.Step | server.py:43-84 | one loop turn keeps the session's socket, writes at most one message, adds at most one name, and writes only to its own socket or to one bound to a registered name |
| Server.RegisterFreeName | server.py:55-58 | registering a free name binds it to the caller, makes it the session's name, appends it to the listing order, replies `Welcome <name>!` and changes no other binding |
| Server.RegisterTakenName | server.py:50-54 | registering a taken name keeps its owner's binding and binds the caller under a fresh `name_XXXX` with an alphanumeric suffix, announced on the caller's socket |
| Server.RegisterWithoutName | server.py:49 | `server:register` with no name after it ends the session silently through the teardown |
| Server.UnregisteredRejected | server.py:60-62 | before a name is set, any non-empty chunk that is not a registration gets `ERROR:You must register a username first.` and nothing changes |
| Server.WhoListsUsers | server.py:64-66 | `server:who` replies with every registered name in registration order and changes nothing; the reply parses back to that list |
| Server.WhoeverIsWho | server.py:64 | prefix matching: `server:whoever` gets the same answer as `server:who` |
| Server.ExitEndsSession | server.py:68-70 | `server:exit` replies `Goodbye!`, ends the session and unbinds only the session's name |
| Server.HangupTearsDown | server.py:44-46 | end of stream ends the session without a reply and runs the same teardown, registered or not |
| Server.MalformedRejected | server.py:72-75 | a non-command chunk without `:` gets `ERROR:Invalid message format.` and nothing changes |
| Server.DirectMessageRouted | server.py:77-84 | `recipient:body` is forwarded as `sender: body` to the recipient's socket alone; a failed write or an unknown recipient is reported to the sender only; nothing changes |
| Server.ClientRegisters | client.py:46 | the client's registration request for a free one-word name binds exactly that name and welcomes it |
| Server.ClientEmptyNameEndsSession | client.py:45-46 | an empty or blank name typed at the client's prompt makes the server end the session |
| Server.ClientMessageRouted | client.py:61-63 | a message the client sends to a registered user reaches that user's socket as `sender: message`, provided the recipient's name has no `:`, the name is not `server`, and the write to the recipient's socket succeeds |
| Server.TeardownKeepsValid | server.py:88-89 | the teardown keeps registered names unique and whitespace-free |
| Server.QualifiedIsWord | server.py:30 | a suffixed name of a whitespace-free base is whitespace-free |
| Server.StepKeepsValid | server.py:48-89 | every step keeps registered names unique and whitespace-free, and the session's own name stays one word |
| Server.RegisterThenHangup | server.py:55-89 | registering a free name and then hanging up restores the registry exactly |
| Server.RegisterTwice | server.py:48-58 | a second registration binds the new name without releasing the first |
| Server.ReRegisterLeavesStaleBinding | server.py:48-89 | after two registrations and `server:exit`, the teardown unbinds only the second name, and the first stays bound to the closed connection |
| Session.StepStaysInLane | server.py:43-89 | one step keeps the session's own name bound to its socket, changes no other connection's binding, and writes only to sockets reachable from the start |
| Session.HandleClient | server.py:34-90 | a whole session ends with a valid registry and, once closed, with its name unbound; it never changes another connection's binding, writes at most one message per chunk, and writes only to its own socket or to sockets bound to names at the start |

## Left out

- Sockets: `recv(1024)`, `decode`, `send` on the session's own socket and `close` are left out. A chunk is a whole string. A failed write, a failed decode or a chunk split across reads is not modelled.
- The `print` in the `except` block is left out. Only its effect on control flow is kept: the loop ends and the teardown runs.
- Threads: the unlocked `users` dictionary shared between threads is not modelled. Each step is atomic. `Session.HandleClient` runs one session as if no other session acted in between. The race where a recipient disappears between `recipient in users` and `users[recipient]` is folded into the `peerWriteFails` input.
- `random.choices` is left out. `Server.Step` takes the suffix as an input, and its precondition requires one the loop could stop at. `Usernames.GenerateUniqueUsername` picks any free suffix. No distribution is modelled.
- Usernames.GenerateUniqueUsername: requires fewer than 62^4 registered names. With more, every candidate may be taken and the source's `while True` never ends.
- Session.HandleClient: requires the registry size plus the number of chunks to stay below 62^4 for the same reason. It looks at one session only.
- Server.Step: says nothing about connections other than the session's own and the recipient of a forward. Peer sockets are connection ids, and what a peer's thread does with a forwarded text is not modelled.
- `start_server`, the accept loop, thread creation and argument parsing are not part of this model.
- The interactive prompt loops of `client.py` and `placeholder.py` are not part of this model, and neither is the TLS wrapping. Only the request formats the client sends are modelled, in `Protocol`.
- The code has no rooms, broadcasts or offline mailbox, so the model has none either.
