/** Values of the chat relay: stored records, emitted events, the
    handshake a client supplies, and the replay selection `id > offset`. */
module Messages {

  import opened Decimal

  datatype Option<T> = None | Some(value: T)

  /** `socket.handshake.auth`: both fields are optional. */
  datatype Handshake = Handshake(username: Option<string>, serverOffset: Option<int>)

  /** One row of the `messages` table: `id SERIAL`, `content TEXT`, `"user" TEXT`. */
  datatype Record = Record(id: nat, content: string, user: string)

  /** One `'chat message'` event: content, the id as a string, the author. */
  datatype Event = ChatMessage(content: string, id: string, user: string)

  const Anonymous: string := "anonymous"

  /** The largest value of the int4 sequence behind a SERIAL column. */
  const SerialMax: nat := 2147483647

  /** A value PostgreSQL accepts as an int4 query parameter. */
  predicate IsInt4(k: int) {
    -(SerialMax as int) - 1 <= k <= SerialMax
  }

  /** The author of a publish: the handshake's username, or "anonymous". */
  function AuthorOf(username: Option<string>): (r: string)
    ensures username.None? ==> r == Anonymous
    ensures username.Some? ==> r == username.value
  {
    match username
    case None => Anonymous
    case Some(u) => u
  }

  /** The offset a non-recovered connection is replayed after. */
  function OffsetOf(serverOffset: Option<int>): (k: int)
    ensures serverOffset.None? ==> k == 0
    ensures serverOffset.Some? ==> k == serverOffset.value
  {
    match serverOffset
    case None => 0
    case Some(k) => k
  }

  /** The event a record is emitted as, live or in replay. */
  function EventOf(r: Record): Event {
    ChatMessage(r.content, IdString(r.id), r.user)
  }

  function Events(rows: seq<Record>): (es: seq<Event>)
    ensures |es| == |rows|
  {
    seq(|rows|, i requires 0 <= i < |rows| => EventOf(rows[i]))
  }

  lemma EventsAppend(a: seq<Record>, b: seq<Record>)
    ensures Events(a + b) == Events(a) + Events(b)
  {
  }

  /** Ids grow strictly in insertion order, so no two rows share one. */
  ghost predicate StrictlyIncreasing(log: seq<Record>) {
    forall i, j :: 0 <= i < j < |log| ==> log[i].id < log[j].id
  }

  /** The rows `SELECT ... WHERE id > k` selects, in insertion order. */
  function After(log: seq<Record>, k: int): seq<Record>
    decreases |log|
  {
    if |log| == 0 then []
    else After(log[..|log| - 1], k) + (if log[|log| - 1].id > k then [log[|log| - 1]] else [])
  }

  /** A row is selected exactly when it is stored and its id exceeds the offset. */
  lemma {:induction false} AfterMembership(log: seq<Record>, k: int, r: Record)
    ensures r in After(log, k) <==> r in log && r.id > k
    decreases |log|
  {
    if |log| > 0 {
      var p := log[..|log| - 1];
      assert log == p + [log[|log| - 1]];
      AfterMembership(p, k, r);
    }
  }

  /** Without a declared offset every stored row is replayed. */
  lemma {:induction false} AfterDefaultIsWholeLog(log: seq<Record>)
    requires forall r :: r in log ==> r.id >= 1
    ensures After(log, OffsetOf(None)) == log
    decreases |log|
  {
    if |log| > 0 {
      var p := log[..|log| - 1];
      assert log == p + [log[|log| - 1]];
      AfterDefaultIsWholeLog(p);
    }
  }

  /** An offset at or above every stored id selects nothing (and is no error). */
  lemma {:induction false} AfterBeyondLastIsEmpty(log: seq<Record>, k: int)
    requires forall r :: r in log ==> r.id <= k
    ensures After(log, k) == []
    decreases |log|
  {
    if |log| > 0 {
      var p := log[..|log| - 1];
      assert log == p + [log[|log| - 1]];
      AfterBeyondLastIsEmpty(p, k);
    }
  }

  /** The event `e` is owed to a connection replayed after `k`. */
  ghost predicate Owed(log: seq<Record>, k: int, e: Event) {
    exists r :: r in log && r.id > k && EventOf(r) == e
  }

  /** A later row never carries the event of an earlier one. */
  lemma LastEventIsNew(p: seq<Record>, x: Record, r: Record)
    requires StrictlyIncreasing(p + [x])
    requires r in p
    ensures EventOf(r) != EventOf(x)
  {
    var log := p + [x];
    var i :| 0 <= i < |p| && p[i] == r;
    assert log[i] == r && log[|p|] == x;
    IdStringInjective(r.id, x.id);
  }

  /** Over a log with unique ids, the replay after `k` holds each owed event
      exactly once and nothing else. */
  lemma {:induction false} ReplayCount(log: seq<Record>, k: int, e: Event)
    requires StrictlyIncreasing(log)
    ensures multiset(Events(After(log, k)))[e] == if Owed(log, k, e) then 1 else 0
    decreases |log|
  {
    if |log| == 0 {
      assert !Owed(log, k, e);
    } else {
      var p, x := log[..|log| - 1], log[|log| - 1];
      assert log == p + [x];
      assert StrictlyIncreasing(p);
      var tail := if x.id > k then [x] else [];
      assert After(log, k) == After(p, k) + tail;
      EventsAppend(After(p, k), tail);
      ReplayCount(p, k, e);
      var here := x.id > k && EventOf(x) == e;
      assert multiset(Events(tail))[e] == if here then 1 else 0;
      assert multiset(Events(After(log, k)))[e]
          == multiset(Events(After(p, k)))[e] + multiset(Events(tail))[e];
      OwedSplit(p, x, k, e);
      if here && Owed(p, k, e) {
        var r :| r in p && r.id > k && EventOf(r) == e;
        LastEventIsNew(p, x, r);
      }
    }
  }

  /** A row is owed after appending `x` when it was owed before or is `x`. */
  lemma OwedSplit(p: seq<Record>, x: Record, k: int, e: Event)
    ensures Owed(p + [x], k, e) <==> Owed(p, k, e) || (x.id > k && EventOf(x) == e)
  {
  }

  /** Every replayed event is the event emitted when its row was published. */
  lemma ReplayedWasBroadcast(log: seq<Record>, k: int, e: Event)
    ensures e in Events(After(log, k)) ==> e in Events(log)
  {
    if e in Events(After(log, k)) {
      var rows := After(log, k);
      var i :| 0 <= i < |rows| && Events(rows)[i] == e;
      AfterMembership(log, k, rows[i]);
      var j :| 0 <= j < |log| && log[j] == rows[i];
      assert Events(log)[j] == e;
    }
  }

  /** What a connection is sent on connect: nothing when it was recovered or
      the read failed (the store failed, or the offset is not an int4);
      otherwise the events of the rows after its offset, in whatever order
      the store returns them. */
  ghost predicate IsReplay(out: seq<Event>, log: seq<Record>, recovered: bool, hs: Handshake, readOk: bool) {
    if recovered || !readOk || !IsInt4(OffsetOf(hs.serverOffset)) then out == []
    else multiset(out) == multiset(Events(After(log, OffsetOf(hs.serverOffset))))
  }

  /** What a replay holds when the store is up (`readOk`), for a log whose
      ids are positive and strictly increasing: nothing when the offset is
      not an int4; otherwise each owed event once and nothing else. In every
      case only events that were broadcast, the whole log when no offset is
      declared, and nothing when the offset is at or beyond the last id. */
  lemma ReplayProperties(out: seq<Event>, log: seq<Record>, hs: Handshake)
    requires StrictlyIncreasing(log)
    requires forall r :: r in log ==> r.id >= 1
    requires IsReplay(out, log, false, hs, true)
    ensures var k := OffsetOf(hs.serverOffset);
            && (!IsInt4(k) ==> out == [])
            && (IsInt4(k) ==> forall e :: multiset(out)[e] == if Owed(log, k, e) then 1 else 0)
            && (forall e :: e in out ==> e in Events(log))
            && (hs.serverOffset.None? ==> multiset(out) == multiset(Events(log)))
            && ((forall r :: r in log ==> r.id <= k) ==> out == [])
  {
    var k := OffsetOf(hs.serverOffset);
    if IsInt4(k) {
      forall e ensures multiset(out)[e] == if Owed(log, k, e) then 1 else 0 {
        ReplayCount(log, k, e);
      }
      forall e | e in out ensures e in Events(log) {
        assert e in multiset(Events(After(log, k)));
        ReplayedWasBroadcast(log, k, e);
      }
      if hs.serverOffset.None? {
        AfterDefaultIsWholeLog(log);
      }
      if forall r :: r in log ==> r.id <= k {
        AfterBeyondLastIsEmpty(log, k);
        assert multiset(out) == multiset{};
      }
    }
  }
}
