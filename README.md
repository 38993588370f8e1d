# Point-to-point relay: queue store and subscription registry in Dafny

This project models the two coupled parts of the point-to-point messaging relay.

- **The per-recipient message queue** (`Persistence`, src/server/persistence.ts).
  - Each recipient has three pointer keys, `head`, `unreadHead` and `tail`, in a key-value store.
  - Each message has a record keyed by its id. The records form a singly linked list through `nextMessageId`, which ends at the sentinel `"empty"`.
  - `persistMessage` appends a record.
  - The `messages` generator walks the chain from `head` or from `unreadHead`. On the way it marks records delivered and, in unread mode, moves `unreadHead` forward.
- **The subscription registry and fan-out** of `Server` (src/server/server.ts). It has two maps: socket to addresses, and address to sockets. Its handlers subscribe, relay a message, dump a backlog, and drop a socket on disconnect.

## Files

- `optional.dfy`: the `Option` type. `Some(t)` / `None` stand for `number | null`.
- `message.dfy`: the message `{to, message}` of src/model/message.ts. The payload is kept as bytes.
- `queue_spec.dfy` (module `QueueSpec`): the queue as values.
  - The store is a `map<Key, Val>`. A `Key` is `Head(to)`, `UnreadHead(to)`, `Tail(to)` or `Rec(id)`, so keys of different kinds cannot collide.
  - `Appended` is one `persistMessage` step. `Drain` and `Walk` are one `messages` run.
  - `Consistent` is the store invariant. It links the store to a ghost map from each recipient to its chain of ids.
  - This module also holds the lemmas that every operation keeps the invariant.
- `persistence.dfy` (module `QueueStore`): the `Persistence` class.
  - The store is a field that its methods update step by step.
  - Each method is proved to end in the state that the `QueueSpec` functions describe.
  - The walk is a `while` loop over a cursor, as in the source.
- `queue_props.dfy` (module `QueueProps`): what the queue promises, as lemmas:
  - what a walk yields and writes;
  - what an append changes;
  - how several operations combine.
- `server.dfy` (module `RelayServer`):
  - the `Server` class, with its two maps, a log of sends (`outbox`) and a `Persistence` store;
  - the functions `Subscribed` and `Disconnected`, which describe the map updates;
  - the lemmas about the registry.

The store's clock and the uuid generator are parameters: `now: nat` and a fresh `id` with `Rec(id) !in db`. Sockets are opaque identities. A `socket.send` appends `Send(socket, message)` to `outbox`.

A consumer of `messages` can stop early, so `Messages`, `Drain` and `Walk` take `limit: Option<nat>`.
- `Some(k)` means the consumer stops after the k-th message.
- That message is yielded, but the generator is never resumed, so its delivered mark and its `unreadHead` move do not happen.
- `None` means the consumer reads to the end, as `_dumpMessages` does.

## Behaviour as written

The model follows the code as written, including the places where it does something a user of the relay would probably not expect. A lemma exhibits each of them.

- **`unreadHead` can get stuck.**
  - A complete unread walk leaves `unreadHead` at `"empty"`.
  - `_initializeQueue` writes the pointers only when `head` is missing (src/server/persistence.ts:106-121), so later appends never move `unreadHead` again.
  - Messages appended after that are never yielded by an unread walk (`StuckUnreadHead`).
  - One would expect `unreadHead` to name the oldest record not yet read, so that new messages are read next.
- **Live-delivered messages are replayed.**
  - `_handleMessage` persists a message that it delivered live with a delivered time.
  - The unread walk does not look at delivered times (src/server/persistence.ts:83-99). So as long as `unreadHead` still names a record, the next unread walk yields that message again (`UnreadSeesAppend`). That always holds for a recipient's first message (`LiveDeliveredReplayed`). Once `unreadHead` is stuck at `"empty"`, the message is never yielded by an unread walk at all, as described above.
  - One would expect a message that was already delivered live not to be delivered again. The repository's test "should only retrieve stored message once" (test/server/persistence.ts:94) checks only that a second read of an unchanged queue yields nothing, which `UnreadTwice` also states.
- **An early stop re-yields the last message.** A consumer that stops after its k-th message leaves `unreadHead` at that message, so the next unread walk yields it again (`DrainUnreadPointer`).
- **Disconnect is too broad.** `_handleDisconnect` deletes the whole entry of every address the socket had subscribed to. This also drops the other sockets subscribed to that address (`DisconnectDropsOthers`), although one would expect only the disconnected socket to be removed.
- **Case handling is inconsistent.**
  - Persistence keys use `message.to` as given, without lower-casing.
  - `_handleMessage` looks up sockets under the lower-cased address.
  - `_dumpMessages` looks up sockets under the address as given. An address with upper-case letters therefore never has sockets, and its backlog is drained and marked but sent to no one (`MixedCaseReachesNoOne`).
  - `_handleSubscription` tests membership with the address as given but pushes the lower-cased form. A repeated subscription with upper-case letters therefore pushes the address again (`SubscribeRecorded`), so subscribing twice is not the same as subscribing once.

## Model

| member | source | states |
|---|---|---|
| `QueueSpec.WrapMessage` | src/server/persistence.ts:124-135 | The new record has the given id, `receivedTime = now`, the message and `next = "empty"`. A truthy delivered time is kept; an absent time or 0 becomes null. |
| `QueueSpec.Mark` | src/server/persistence.ts:90-93 | A record with a falsy delivered time gets `now`. Any other record is returned unchanged. Id, message, link and received time are always kept. |
| `QueueSpec.AppendConsistent` | src/server/persistence.ts:42-68 | An append with a fresh id can run on a consistent store. The store stays consistent, with the recipient's chain extended by the new id: head at the first record, tail at the last, and each record linking to the next. |
| `QueueSpec.WalkConsistent` | src/server/persistence.ts:70-101 | Every walk, in either mode and with any early stop, keeps the store consistent. |
| `QueueSpec.DrainConsistent` | src/server/persistence.ts:83-100 | A walk over any suffix of a recipient's chain keeps the store consistent, with every queue unchanged, and every record of that suffix is stored. Which keys the walk writes is stated by `DrainFrame`. |
| `QueueSpec.StartChain` | src/server/persistence.ts:71-83 | The start pointer (`head` with includeReadMessages, else `unreadHead`) names the first record the walk visits, or holds `"empty"`. If the key is missing, the walk visits nothing. The visited ids form a stored chain that ends at `"empty"`. |
| `QueueSpec.DrainAdvance` | src/server/persistence.ts:83-99 | After one turn of the walk (`Visit` of the first record: its mark and, in unread mode, the move of `unreadHead`), the rest of the chain is still stored and linked. The walk's result is then the first record's message followed by the walk over the rest. |
| `QueueSpec.FollowStep` | src/server/persistence.ts:83-99 | One turn of the walk loop: after the first record is yielded, marked and passed, the rest of the chain is still stored and linked. The walk from the second record, with one message fewer left to take, completes the same result. |
| `QueueStore.Persistence.PersistMessage` | src/server/persistence.ts:42-68 | The store becomes exactly `Appended`: initialise if `head` is missing, write the record, link the old tail, move the tail. The invariant is kept, and the recipient's chain grows by the new id. |
| `QueueStore.Persistence.InitializeQueue` | src/server/persistence.ts:103-122 | If `head` is missing, `head` and `unreadHead` name the new id and `tail` is `"empty"`. Otherwise the store is unchanged. |
| `QueueStore.Persistence.UpdateLastMessagePointer` | src/server/persistence.ts:137-144 | If the tail names a record, that record now links to the new id. If the tail is `"empty"`, nothing changes. |
| `QueueStore.Persistence.Messages` | src/server/persistence.ts:70-101 | The new store and the yielded messages are exactly `Walk` of the old store. The invariant is kept. A missing start key yields nothing and writes nothing. |
| `QueueStore.Persistence.FollowChain` | src/server/persistence.ts:83-100 | The cursor loop is exactly `Drain` over the chain it starts on. Each record's message is yielded before it is marked, and in unread mode before `unreadHead` is moved. |
| `QueueStore.Persistence.MarkAndAdvance` | src/server/persistence.ts:90-99 | The writes for one yielded record are exactly `Visit`: it is marked delivered `now` if its time is falsy, and in unread mode `unreadHead` moves to the record it links to. The returned cursor is that link. |
| `QueueProps.DrainYield` | src/server/persistence.ts:83-100 | A walk yields the messages of its records in chain order: all of them, or the first `limit` when the consumer stops early. |
| `QueueProps.DrainKeepsMessages` | src/server/persistence.ts:90-99 | A walk rewrites no message in any record. |
| `QueueProps.DrainFrame` | src/server/persistence.ts:90-99 | A walk writes only the records it passes and, in unread mode, that recipient's `unreadHead`. Every other key is left as it was. With includeReadMessages, `unreadHead` is never written. |
| `QueueProps.DrainMarks` | src/server/persistence.ts:88-93 | Each fully processed record gets delivered time `now` if its time was falsy and keeps its time otherwise, in either mode. The last record taken by a stopping consumer, and every record after it, is untouched. |
| `QueueProps.DrainUnreadPointer` | src/server/persistence.ts:88-99 | In unread mode, after p > 0 processed records, `unreadHead` names the (p+1)-th record, or `"empty"` after the last. A consumer that stops after its k-th message, k > 1, has k-1 records processed, so `unreadHead` is left on the k-th, the last one it took. A walk that processes nothing leaves it alone. |
| `QueueProps.HeadStartsAtFirst` | src/server/persistence.ts:73-74 | A walk from `head` covers the recipient's whole chain. It covers nothing if the recipient has no queue. |
| `QueueProps.StartIdsDistinct` | src/server/persistence.ts:83-85 | The records a walk visits are pairwise distinct, so no record is visited twice. |
| `QueueProps.ReadAllTwice` | src/server/persistence.ts:70-101 | With includeReadMessages, a walk yields the whole history in append order and leaves `head`, `unreadHead` and `tail` as they were. A second such walk yields the same history. |
| `QueueProps.UnreadTwice` | src/server/persistence.ts:95-99 | An unread walk yields the backlog from `unreadHead` and leaves `unreadHead` at `"empty"`. An unread walk right after it yields nothing and writes nothing. |
| `QueueProps.AppendToNewQueue` | src/server/persistence.ts:103-122 | Appending for a recipient with no `head` ends with `head`, `unreadHead` and `tail` all naming the new record. That record is the wrapped message and links to `"empty"`. No other key changes. |
| `QueueProps.AppendToExistingQueue` | src/server/persistence.ts:137-144 | Appending for a recipient with a `head` links the old tail record to the new id and moves `tail` to it. `head`, `unreadHead` and every other key are unchanged. |
| `QueueProps.AppendKeepsMessages` | src/server/persistence.ts:52-62 | An append adds exactly one record key, the new id. Every stored message is kept, and the new message follows them. |
| `QueueProps.ReadAllGrows` | src/server/persistence.ts:42-68 | After an append, a walk from `head` yields what it yielded before, followed by the new message. |
| `QueueProps.LiveDeliveredReplayed` | src/server/persistence.ts:83-93 | A message persisted with a truthy delivered time for a new recipient is still yielded by the next unread walk. Its delivered time is kept. |
| `QueueProps.UnreadSeesAppend` | src/server/persistence.ts:42-99 | While `unreadHead` names a record, an append with any delivered time keeps the store consistent. The next unread walk visits the same records plus the new one, and yields the same backlog followed by the new message. |
| `QueueProps.UnreadStartAfterAppend` | src/server/persistence.ts:106-121 | While `unreadHead` names a record, `_initializeQueue` leaves it alone and the append extends the chain, so an unread walk visits what it visited before, followed by the new id. |
| `QueueProps.UnreadWalkGrows` | src/server/persistence.ts:70-100 | If an unread walk on a later store visits the records of an earlier unread walk plus one more, and those records hold the same messages followed by `m`, it yields the earlier walk's messages followed by `m`. |
| `QueueProps.StuckUnreadHead` | src/server/persistence.ts:106-121 | Once `unreadHead` is `"empty"`, an append leaves it `"empty"`, and the next unread walk yields nothing, not even the new message. |
| `QueueProps.AppendAll` | src/server/persistence.ts:42-68 | Messages appended one after another with fresh, distinct ids keep the store consistent. |
| `QueueProps.AppendAllQueue` | src/server/persistence.ts:42-68 | Appending messages for one recipient appends their ids to its chain in order, and their messages to what the chain holds. |
| `QueueProps.AppendAllThenReadAll` | src/server/persistence.ts:42-101 | After N appends for a recipient with no queue, a walk from `head` yields exactly the N messages in append order. `head` names the first record and `tail` the last. Each record links to the next, and only the last links to `"empty"`. |
| `QueueProps.ReadAllYield` | src/server/persistence.ts:73-100 | A complete walk from `head` yields every message of the recipient's chain. |
| `QueueProps.QueueShape` | src/server/persistence.ts:9-15 | Under the invariant, a recipient's records form a chain that ends at `"empty"`, with `head` naming its first record and `tail` its last. |
| `RelayServer.Lower` | src/server/server.ts:79 | Lower-casing (ASCII) keeps the length, leaves no upper-case letter and changes no other character. An already lower-case address is unchanged. |
| `RelayServer.SubscribeOnce` | src/server/server.ts:87-92 | After a subscription, the socket occurs exactly once in the list for the lower-cased address. Re-subscribing never duplicates it. |
| `RelayServer.SubscribeRecorded` | src/server/server.ts:88-96 | After a subscription, the socket's list holds the lower-cased address. A repeat with a lower-case address adds nothing. An address with upper-case letters is pushed again. |
| `RelayServer.SubscribeKeepsRegistryOk` | src/server/server.ts:78-96 | A subscription keeps the registry invariant. Address keys are lower case with no repeated socket. Socket entries are non-empty lists of lower-case addresses. A socket listed under an address has that address in its own list. |
| `RelayServer.DisconnectEffect` | src/server/server.ts:143-150 | After a disconnect, the socket has no entry and no address from its former list has an entry. Every other entry of both maps is unchanged. |
| `RelayServer.DisconnectDropsOthers` | src/server/server.ts:144-146 | Disconnecting one socket drops the whole entry of a shared address, although the other subscribed socket still lists that address. |
| `RelayServer.DisconnectKeepsRegistryOk` | src/server/server.ts:140-151 | A disconnect keeps the registry invariant. Afterwards no address lists the socket. |
| `RelayServer.MixedCaseReachesNoOne` | src/server/server.ts:127 | An address with an upper-case letter has no socket list, so a dump for it sends nothing. |
| `RelayServer.FanoutShape` | src/server/server.ts:128-137 | A dump sends every message to every socket, message by message in walk order and socket by socket in list order. Message i goes to socket j as send number i·K+j, where K is the number of sockets. |
| `RelayServer.FanoutLength` | src/server/server.ts:128-137 | A dump of M messages to K sockets makes exactly M·K sends. |
| `RelayServer.FanoutAt` | src/server/server.ts:128-137 | For one message i and one socket j, send number i·K+j exists and is message i to socket j. |
| `RelayServer.Server.constructor` | src/server/server.ts:28-29 | The server starts with both maps empty, nothing sent and an empty store. |
| `RelayServer.Server.HandleSubscription` | src/server/server.ts:78-100 | The maps become `Subscribed`. Then the unread backlog stored under the address as given is drained, and each message is sent to the sockets listed under the address as given. The invariants are kept. |
| `RelayServer.Server.RecordSubscription` | src/server/server.ts:79-96 | The map updates of a subscription are exactly `Subscribed`. Nothing is sent. |
| `RelayServer.Server.HandleMessage` | src/server/server.ts:102-124 | One send per socket listed under the lower-cased address, in list order. Then the message is persisted once, unchanged, with delivered time `now` if that list is non-empty and null otherwise. Both maps are unchanged. |
| `RelayServer.Server.DumpMessages` | src/server/server.ts:126-138 | The store becomes the result of the walk. Each message the walk yields is sent, in walk order, to every socket listed under the address as given. The maps are unchanged. |
| `RelayServer.Server.SendToEach` | src/server/server.ts:107-114 | The message is sent to each socket of the list, in order. The maps are unchanged. |
| `RelayServer.Server.SendEachToEach` | src/server/server.ts:128-137 | The sends of a dump are exactly `Fanout`: each message in turn, to each socket in turn. |
| `RelayServer.Server.HandleDisconnect` | src/server/server.ts:140-151 | The maps become `Disconnected`: every address in the socket's list loses its entry, and so does the socket if its list was non-empty. Nothing is sent. The invariants are kept. |

## Left out

- The `Persistence` constructor's directory creation and LevelDB set-up (filesystem and foreign libraries). The store starts as an empty in-memory map.
- The JSON encoding of stored values. A stored value is either a pointer or a record.
- The message payload is generic in the source. Here it is a byte sequence.
- Storage errors other than "not found", which the source rethrows (src/server/persistence.ts:78-80, 118-120).
  - The walk's read of a record that is missing would throw.
  - The store invariant rules out every such read, so none of these paths is modelled.
- Concurrency.
  - The writes inside `Promise.all`, and the `persistMessage` that `_handleMessage` does not await, are each modelled as one sequential step, in issue order.
  - The generator's interleaving with the sends in `_dumpMessages` is not modelled as an interleaving. The sends touch only the log of sends and the marks touch only the store, so the final state is the same.
  - Races between concurrent walks or appends are not modelled.
- `uuid4()` and `Date`: the id and the clock are parameters.
  - One `now` serves a whole walk, while the source reads the clock once per record it marks.
  - One `now` serves both the delivered time and the received time of a relayed message.
- Unicode `toLowerCase`: `Lower` folds only the ASCII letters A-Z.
- Logging, the sender socket and remote host addresses, used only in log lines.
- The server constructor, `close`, `runServer` and `_getLogFormat` (express, http and socket.io set-up and winston). Sockets are opaque identities. The `connection` handlers are the three `Handle` methods.
- `QueueStore.Persistence.FollowChain`: in the source this loop is the body of `messages`. It is a separate method here only so that the loop's proof context holds the chain and not the whole store invariant. For the same reason the writes of one turn of the loop are the method `MarkAndAdvance`.
- src/client.ts, src/server/args.ts, src/index.ts, src/example-client-usage.ts and jest.config.js are not part of this model.
