# Chat relay: durable log, broadcast and replay-on-connect

A model of the message relay of a socket.io chat server backed by a
PostgreSQL `messages` table (`id SERIAL PRIMARY KEY, content TEXT, "user" TEXT`).

- A client that sends `'chat message'` has its text stored with the author
  taken from its handshake (`username`, or `"anonymous"`). If the insert
  fails, nothing else happens. If it succeeds, the server emits
  `('chat message', content, id as a string, author)` to every connected
  socket. The sender is one of them.
- A socket that connects without socket.io's state recovery is sent every
  stored row whose id exceeds the `serverOffset` it declared (0 when absent).
  The rows go to that socket only, one event per row. A recovered socket is
  sent nothing. A failed read sends nothing, and the connection goes on.

The model is one class, `Server.ChatServer`. It holds the table as a
sequence of records (`log`), the next value of the id sequence (`nextId`),
the set of connected sockets, and each socket's outbox: every event emitted
to it, in order. It also keeps each socket's handshake and, as ghost state,
the list of every event `io.emit` has broadcast so far, extended by
`Publish` where it emits. Its invariant `Valid()` says four
things:
- ids are positive and strictly increasing in insertion order, and stay
  below `nextId`;
- `nextId` never passes the int4 sequence's maximum plus one;
- the connected sockets are among the outbox keys, and the handshakes have
  exactly the outbox keys (a disconnected socket keeps its outbox);
- the broadcast history is exactly the events of the stored rows.

Each handler runs as one atomic step. Store failures are boolean inputs
(`writeOk`, `readOk`), and so is socket.io's `recovered` flag. The handshake
is a `Messages.Handshake` value with optional `username` and `serverOffset`.
Module `Decimal` models `Number.prototype.toString` on ids, and its inverse.
Module `Messages` holds the values, the defaulting rules, the
`id > offset` selection (`After`) and the lemmas about replays.

The query at `server/index.js:73` has no `ORDER BY`, so rows may come back
in any order. The model's store returns them in insertion order, and what
`Connect` promises about the replay (`Messages.IsReplay`) is a multiset, so
no order is promised.

## Model

| member | source | states |
|---|---|---|
| `Messages.AuthorOf` | server/index.js:59 | the author is `"anonymous"` when the handshake has no username, and the handshake's username (even an empty one) otherwise |
| `Messages.OffsetOf` | server/index.js:73 | the replay offset is 0 when the handshake has no `serverOffset`, and the declared value otherwise |
| `Decimal.IdString` | server/index.js:68 | the id string is a non-empty string of decimal digits with no leading zero, as `toString` writes a non-negative integer |
| `Decimal.ParseIdString` | server/index.js:68 | reading the id string back as decimal gives the id itself (round trip) |
| `Decimal.IdStringInjective` | server/index.js:76 | two different ids are never sent as the same id string |
| `Messages.AfterMembership` | server/index.js:73 | a record is selected by `WHERE id > k` if and only if it is stored and its id exceeds `k` |
| `Messages.AfterDefaultIsWholeLog` | server/index.js:73 | with no declared offset, when all ids are positive (SERIAL starts at 1), every stored record is selected |
| `Messages.AfterBeyondLastIsEmpty` | server/index.js:73 | an offset at or above every stored id selects nothing; this is an empty result, not an error |
| `Messages.LastEventIsNew` | server/index.js:43 | under strictly increasing ids, a newly appended record's event differs from the event of every earlier record |
| `Messages.ReplayCount` | server/index.js:73-77 | over a log with strictly increasing ids, the events of the rows after `k` contain each event of a stored record with id above `k` exactly once, and no other event |
| `Messages.ReplayedWasBroadcast` | server/index.js:68-76 | every replayed event is among the events of the stored records, so it is the same `(content, id string, user)` triple that was broadcast when that record was published |
| `Messages.ReplayProperties` | server/index.js:71-77 | a non-recovered connection whose store is up (`readOk`) gets nothing when its offset is not an int4, and otherwise each owed event once and nothing else; in every case it gets only events that were broadcast, the whole log (as a multiset) when no offset is declared, and nothing when the offset is at or beyond the last id |
| `Server.ChatServer.constructor` | server/index.js:42-46 | a fresh server has an empty table, id sequence at 1, no sockets, no outboxes, and nothing broadcast |
| `Server.ChatServer.Insert` | server/index.js:62 | the insert succeeds if and only if the store succeeds and the int4 sequence is not exhausted. On success it appends exactly one record `(id, content, user)`, and that id is above every earlier id. On failure nothing changes |
| `Server.ChatServer.SelectAfter` | server/index.js:73 | the read succeeds if and only if the store succeeds and the offset is an int4 (the type of `id`, which PostgreSQL gives the parameter); then it returns exactly the stored rows with id above the offset. A failed read returns no rows. The table is not changed |
| `Server.ChatServer.Publish` | server/index.js:57-69 | if the insert fails, the table, the id sequence and every outbox are unchanged, and the socket stays connected. If it succeeds, exactly one record `(msg, author)` with the fresh id is appended, and `(msg, IdString(id), author)` is appended to the outbox of every connected socket (sender included). Disconnected sockets' outboxes are unchanged, and the event is added to the broadcast history. The set of sockets is unchanged in both cases |
| `Server.ChatServer.Connect` | server/index.js:50-82 | the socket joins the connected set and the table is unchanged. Every other socket's outbox is unchanged. The new socket's outbox satisfies `IsReplay`: empty when recovered (whatever the offset), when the read failed, or when the offset is not an int4; otherwise, as a multiset, the events of the rows with id above `serverOffset ?? 0` |
| `Server.ChatServer.Replay` | server/index.js:71-81 | after a successful read (store up, offset an int4) the socket's outbox grows by the events of the rows after the offset; after a failed read it is unchanged, and so is every other outbox |
| `Server.ChatServer.EmitAll` | server/index.js:75-77 | the socket's outbox grows by one event per row, carrying that row's content, id string and user, in row order; no other outbox changes |
| `Server.ChatServer.Disconnect` | server/index.js:53-55 | the socket leaves the connected set and nothing else changes, so later broadcasts skip it |

## Left out

- Row order of the replay: the model's store returns the rows in insertion order, which is one order the real query may use. `Connect`'s contract states only the multiset of replayed events, because the query has no `ORDER BY`.
- Interleaving at `await` points: each handler is one atomic step. The code registers the publish handler before the replay's `await`, so live messages can arrive before the replay ends. The model therefore states no "replay before live" and no "no duplicates" property.
- How socket.io computes `recovered`, and its buffering during state recovery: `recovered` is an input.
- The HTTP front door: express, morgan and the `GET /` route that serves the client page. This is I/O plumbing.
- Configuration through dotenv, the port, and `server.listen`. These are process setup.
- The PostgreSQL client connection, and `CREATE TABLE IF NOT EXISTS` at startup. These are foreign library calls. The constructor starts from an empty table. A table already populated by an earlier run is not modelled.
- Sequence values used up by a failed insert: the model leaves `nextId` unchanged on failure. Nothing proved depends on ids being dense.
- How pg reads `serverOffset`: a string holding an integer literal (`"5"`, `" 5 "`, as a client echoes the id string back) is read as that integer, which `Some(k)` stands for. Any other text (`""`, `"abc"`, `"1.5"`), a fraction, a boolean or an object makes the query fail, which is the `readOk = false` case. Integer offsets outside the int4 range are modelled: they fail the read too (`Messages.IsInt4`). A username that is not a string is not modelled: `username` is `Option<string>`.
- Non-string message payloads: `msg` is modelled as a string. For any other payload, the live broadcast carries the value as sent, but the stored content is pg's text conversion of it (`42` becomes `"42"`, an object its JSON text, `undefined` becomes NULL). A later replay then carries that stored text, not the value that was broadcast. `Messages.ReplayedWasBroadcast` holds only for string payloads.
- Ill-formed strings: `msg` and `username` are modelled as Dafny strings, which are sequences of Unicode scalar values. A JavaScript string is UTF-16 and can hold an unpaired surrogate, for example from a `"\ud800"` JSON escape. `io.emit` broadcasts such a value unchanged. pg encodes it as UTF-8 for the insert, which puts U+FFFD in place of each unpaired surrogate, and a replay then carries the stored text. So `Messages.ReplayedWasBroadcast` holds only for well-formed string payloads and usernames.
- Logging through `console.*`: it has no logic.
- Socket identities: `Connect` requires a handle not seen before, as socket.io creates a new socket object for every connection. A disconnected socket's outbox stays as the record of what it was sent.
