/** The socket.io connection handler of the chat server: the durable
    `messages` table, the set of live sockets and what each socket has been
    sent. Each handler invocation is one atomic step. */
module Server {

  import opened Decimal
  import opened Messages

  /** The identity of one socket.io connection. */
  type SocketId = nat

  class ChatServer {
    // The messages table and the next value of its id sequence.
    var log: seq<Record>
    var nextId: nat
    // The sockets io.emit reaches.
    var connected: set<SocketId>
    // Every event emitted to each socket, in emission order.
    var outbox: map<SocketId, seq<Event>>
    // socket.handshake.auth of each socket.
    var auth: map<SocketId, Handshake>
    // Every event io.emit has broadcast, in order.
    ghost var published: seq<Event>

    /** The table: ids positive and strictly increasing, below the sequence. */
    ghost predicate StoreValid()
      reads this
    {
      && StrictlyIncreasing(log)
      && 1 <= nextId <= SerialMax + 1
      && (forall r :: r in log ==> 1 <= r.id < nextId)
    }

    ghost predicate Valid()
      reads this
    {
      && StoreValid()
      && connected <= outbox.Keys
      && auth.Keys == outbox.Keys
      && published == Events(log)
    }

    /** Empty table, no sockets. */
    constructor ()
      ensures Valid()
      ensures log == [] && nextId == 1 && connected == {} && outbox == map[] && auth == map[]
      ensures published == []
    {
      log, nextId := [], 1;
      connected, outbox, auth := {}, map[], map[];
      published := [];
    }

    /** `INSERT INTO messages (content, "user") VALUES ($1, $2) RETURNING id`.
        The insert fails when the store fails (`writeOk` false) or when the
        int4 sequence is exhausted; a failed insert stores nothing. */
    method Insert(content: string, user: string, writeOk: bool) returns (id: Option<nat>)
      requires StoreValid()
      modifies this`log, this`nextId
      ensures StoreValid()
      ensures id.Some? <==> writeOk && old(nextId) <= SerialMax
      ensures id.None? ==> log == old(log) && nextId == old(nextId)
      ensures id.Some? ==> id.value == old(nextId) && nextId == old(nextId) + 1
      ensures id.Some? ==> forall r :: r in old(log) ==> r.id < id.value
      ensures id.Some? ==> log == old(log) + [Record(id.value, content, user)]
    {
      if !writeOk || nextId > SerialMax {
        return None;
      }
      log := log + [Record(nextId, content, user)];
      id := Some(nextId);
      nextId := nextId + 1;
    }

    /** `SELECT id, content, "user" FROM messages WHERE id > $1`. The
        parameter is typed like `id`, int4, so an offset outside that range
        makes the query fail, as does a failed store. The query has no
        ORDER BY; this store returns the rows in insertion order. */
    method SelectAfter(k: int, readOk: bool) returns (rows: Option<seq<Record>>)
      ensures rows.Some? <==> readOk && IsInt4(k)
      ensures rows.Some? ==> rows.value == After(log, k)
    {
      if !readOk || !IsInt4(k) {
        return None;
      }
      var found: seq<Record> := [];
      var i := 0;
      while i < |log|
        invariant 0 <= i <= |log|
        invariant found == After(log[..i], k)
      {
        assert log[..i + 1][..i] == log[..i];
        if log[i].id > k {
          found := found + [log[i]];
        }
        i := i + 1;
      }
      assert log[..|log|] == log;
      rows := Some(found);
    }

    /** The `'chat message'` handler: the author is the handshake's username
        or "anonymous"; on a failed insert nothing happens; otherwise the
        stored row's event goes to every connected socket, the sender too. */
    method Publish(sock: SocketId, msg: string, writeOk: bool)
      requires Valid()
      requires sock in connected
      modifies this
      ensures Valid()
      ensures connected == old(connected) && auth == old(auth)
      ensures !(writeOk && old(nextId) <= SerialMax) ==>
                log == old(log) && nextId == old(nextId) && outbox == old(outbox)
                && published == old(published)
      ensures writeOk && old(nextId) <= SerialMax ==>
                var user := AuthorOf(old(auth)[sock].username);
                var ev := ChatMessage(msg, IdString(old(nextId)), user);
                && log == old(log) + [Record(old(nextId), msg, user)]
                && nextId == old(nextId) + 1
                && published == old(published) + [ev]
                && outbox.Keys == old(outbox).Keys
                && (forall s :: s in old(outbox) && s in connected ==> outbox[s] == old(outbox)[s] + [ev])
                && (forall s :: s in old(outbox) && s !in connected ==> outbox[s] == old(outbox)[s])
    {
      var user := AuthorOf(auth[sock].username);
      var id := Insert(msg, user, writeOk);
      match id {
        case None =>
          return;
        case Some(n) =>
          var ev := ChatMessage(msg, IdString(n), user);
          outbox := map s | s in outbox :: if s in connected then outbox[s] + [ev] else outbox[s];
          EventsAppend(old(log), [Record(n, msg, user)]);
          published := published + [ev];
      }
    }

    /** `io.on('connection', ...)`: the socket joins; only when it was not
        recovered is it sent every stored row with id above its declared
        offset (default 0), one event per row, and only it. A failed read
        sends nothing and the connection goes on. */
    method Connect(sock: SocketId, recovered: bool, hs: Handshake, readOk: bool)
      requires Valid()
      requires sock !in outbox
      modifies this
      ensures Valid()
      ensures log == old(log) && nextId == old(nextId) && published == old(published)
      ensures connected == old(connected) + {sock}
      ensures auth == old(auth)[sock := hs]
      ensures outbox.Keys == old(outbox).Keys + {sock}
      ensures forall s :: s in old(outbox) ==> outbox[s] == old(outbox)[s]
      ensures IsReplay(outbox[sock], log, recovered, hs, readOk)
    {
      connected := connected + {sock};
      auth := auth[sock := hs];
      outbox := outbox[sock := []];
      if !recovered {
        Replay(sock, OffsetOf(hs.serverOffset), readOk);
      }
    }

    /** The replay block: read the rows after `k`; on success emit them to
        `sock`, on a failed read (the store fails or `k` is not an int4)
        emit nothing. */
    method Replay(sock: SocketId, k: int, readOk: bool)
      requires sock in outbox
      modifies this`outbox
      ensures outbox == old(outbox)[sock := old(outbox)[sock] + if readOk && IsInt4(k) then Events(After(log, k)) else []]
    {
      var rows := SelectAfter(k, readOk);
      if rows.Some? {
        EmitAll(sock, rows.value);
      } else {
        assert old(outbox)[sock] + [] == old(outbox)[sock];
        assert outbox == old(outbox)[sock := old(outbox)[sock]];
      }
    }

    /** `results.rows.forEach(row => socket.emit(...))`: one event per row,
        in the order the rows came, to this socket only. */
    method EmitAll(sock: SocketId, rows: seq<Record>)
      requires sock in outbox
      modifies this`outbox
      ensures outbox == old(outbox)[sock := old(outbox)[sock] + Events(rows)]
    {
      ghost var start := outbox[sock];
      assert Events(rows[..0]) == [];
      assert start + Events(rows[..0]) == start;
      assert outbox == outbox[sock := start + Events(rows[..0])];
      var i := 0;
      while i < |rows|
        invariant 0 <= i <= |rows|
        invariant outbox == old(outbox)[sock := start + Events(rows[..i])]
      {
        EventsAppend(rows[..i], [rows[i]]);
        assert Events([rows[i]]) == [EventOf(rows[i])];
        assert rows[..i + 1] == rows[..i] + [rows[i]];
        assert start + Events(rows[..i + 1]) == (start + Events(rows[..i])) + [EventOf(rows[i])];
        outbox := outbox[sock := outbox[sock] + [EventOf(rows[i])]];
        i := i + 1;
      }
      assert rows[..|rows|] == rows;
    }

    /** `socket.on('disconnect', ...)`: the socket leaves the broadcast set;
        nothing else changes. */
    method Disconnect(sock: SocketId)
      requires Valid()
      modifies this
      ensures Valid()
      ensures connected == old(connected) - {sock}
      ensures log == old(log) && nextId == old(nextId) && published == old(published)
      ensures outbox == old(outbox) && auth == old(auth)
    {
      connected := connected - {sock};
    }
  }
}
