/**
 * The account event stream: a log with globally increasing sequence numbers, pruned by
 * age under a watermark, and read by clients page by page from a cursor.
 *
 * `SyncLog` is the server's table, `SyncClient` the client's cursor loop.
 */
module SyncEvents {
  const DEFAULT_LIMIT: nat := 200
  const MAX_LIMIT := 1000
  const SECONDS_PER_DAY := 86400

  /** `payload` stands for the type and payload columns. */
  datatype Event = Event(seqNo: int, user: int, payload: string, createdAt: int)

  /** `lastSeq` is the largest number ever handed out; it survives the deletion of rows. */
  datatype Log = Log(rows: seq<Event>, lastSeq: nat, prunedBelow: nat)

  datatype Reply =
    | InvalidRequest
    | NeedsFullSync(fullSyncSeq: int)
    | Page(events: seq<Event>, lastSeq: int, hasMore: bool)

  /** The user's events after a sequence number, in order. */
  function Matching(rows: seq<Event>, user: int, afterSeq: int): seq<Event> {
    if rows == [] then []
    else
      var before := Matching(rows[..|rows| - 1], user, afterSeq);
      var last := rows[|rows| - 1];
      if last.user == user && last.seqNo > afterSeq then before + [last] else before
  }

  function Take(events: seq<Event>, limit: nat): seq<Event> {
    if |events| <= limit then events else events[..limit]
  }

  function Fresh(rows: seq<Event>, cutoff: int): seq<Event> {
    if rows == [] then []
    else
      var before := Fresh(rows[..|rows| - 1], cutoff);
      if rows[|rows| - 1].createdAt < cutoff then before else before + [rows[|rows| - 1]]
  }

  function MaxSeq(rows: seq<Event>): int {
    if rows == [] then 0
    else
      var before := MaxSeq(rows[..|rows| - 1]);
      if rows[|rows| - 1].seqNo > before then rows[|rows| - 1].seqNo else before
  }

  /** The largest sequence number among the rows created before the cutoff, 0 if there is none. */
  function MaxExpiredSeq(rows: seq<Event>, cutoff: int): int {
    if rows == [] then 0
    else
      var before := MaxExpiredSeq(rows[..|rows| - 1], cutoff);
      var last := rows[|rows| - 1];
      if last.createdAt < cutoff && last.seqNo > before then last.seqNo else before
  }

  function Append(log: Log, user: int, payload: string, now: int): Log {
    Log(log.rows + [Event(log.lastSeq + 1, user, payload, now)], log.lastSeq + 1, log.prunedBelow)
  }

  function Cutoff(retentionDays: int, now: int): int {
    now - retentionDays * SECONDS_PER_DAY
  }

  function DeleteExpired(log: Log, cutoff: int): Log {
    log.(rows := Fresh(log.rows, cutoff))
  }

  function RaiseWatermark(log: Log, cutoffSeq: nat): Log {
    log.(prunedBelow := if log.prunedBelow < cutoffSeq then cutoffSeq else log.prunedBelow)
  }

  /**
   * Three statements: the clock is read at `readAt` to find the largest expired number, and
   * again at `deletedAt` to delete the expired rows; then the watermark is raised.
   */
  function Prune(log: Log, retentionDays: int, readAt: int, deletedAt: int): Log {
    var cutoffSeq := MaxExpiredSeq(log.rows, Cutoff(retentionDays, readAt));
    if retentionDays <= 0 || cutoffSeq <= 0 then log
    else RaiseWatermark(DeleteExpired(log, Cutoff(retentionDays, deletedAt)), cutoffSeq)
  }

  function EffectiveLimit(limit: int): nat {
    if limit <= 0 || limit > MAX_LIMIT then DEFAULT_LIMIT else limit
  }

  function Respond(log: Log, user: int, afterSeq: int, limit: int): Reply {
    if afterSeq < 0 then InvalidRequest
    else if 0 < afterSeq < log.prunedBelow then
      NeedsFullSync(if MaxSeq(log.rows) > log.prunedBelow then MaxSeq(log.rows) else log.prunedBelow)
    else
      var events := Take(Matching(log.rows, user, afterSeq), EffectiveLimit(limit));
      Page(events, if events == [] then afterSeq else events[|events| - 1].seqNo, |events| >= EffectiveLimit(limit))
  }

  lemma {:induction false} MatchingSplit(rows: seq<Event>, i: nat, user: int, afterSeq: int)
    requires i <= |rows|
    ensures Matching(rows, user, afterSeq) == Matching(rows[..i], user, afterSeq) + Matching(rows[i..], user, afterSeq)
    decreases |rows|
  {
    if i < |rows| {
      var init := rows[..|rows| - 1];
      MatchingSplit(init, i, user, afterSeq);
      assert init[..i] == rows[..i];
      assert rows[i..][..|rows[i..]| - 1] == init[i..];
    } else {
      assert rows[..i] == rows;
    }
  }

  class SyncLog {
    var rows: seq<Event>
    var lastSeq: nat
    var prunedBelow: nat

    ghost function Contents(): Log
      reads this
    {
      Log(rows, lastSeq, prunedBelow)
    }

    constructor ()
      ensures Contents() == Log([], 0, 0)
    {
      rows, lastSeq, prunedBelow := [], 0, 0;
    }

    method AppendSyncEvent(user: int, payload: string, now: int) returns (seqNo: int)
      modifies this
      ensures Contents() == Append(old(Contents()), user, payload, now)
      ensures seqNo == lastSeq
    {
      lastSeq := lastSeq + 1;
      rows := rows + [Event(lastSeq, user, payload, now)];
      seqNo := lastSeq;
    }

    method GetSyncEvents(user: int, afterSeq: int, limit: nat) returns (result: seq<Event>)
      ensures result == Take(Matching(rows, user, afterSeq), limit)
    {
      result := [];
      var i := 0;
      while i < |rows| && |result| < limit
        invariant 0 <= i <= |rows|
        invariant |result| <= limit
        invariant result == Matching(rows[..i], user, afterSeq)
      {
        assert rows[..i + 1][..i] == rows[..i];
        if rows[i].user == user && rows[i].seqNo > afterSeq {
          result := result + [rows[i]];
        }
        i := i + 1;
      }
      MatchingSplit(rows, i, user, afterSeq);
      assert rows[i..] == [] || |result| == limit;
    }

    method PruneSyncEvents(retentionDays: int, readAt: int, deletedAt: int)
      modifies this
      ensures Contents() == Prune(old(Contents()), retentionDays, readAt, deletedAt)
    {
      if retentionDays <= 0 {
        return;
      }
      var cutoff := Cutoff(retentionDays, readAt);
      var cutoffSeq := 0;
      for i := 0 to |rows|
        invariant cutoffSeq == MaxExpiredSeq(rows[..i], cutoff)
      {
        assert rows[..i + 1][..i] == rows[..i];
        if rows[i].createdAt < cutoff && rows[i].seqNo > cutoffSeq {
          cutoffSeq := rows[i].seqNo;
        }
      }
      assert rows[..|rows|] == rows;
      if cutoffSeq <= 0 {
        return;
      }
      cutoff := Cutoff(retentionDays, deletedAt);
      var kept := [];
      for i := 0 to |rows|
        invariant kept == Fresh(rows[..i], cutoff)
      {
        assert rows[..i + 1][..i] == rows[..i];
        if rows[i].createdAt >= cutoff {
          kept := kept + [rows[i]];
        }
      }
      assert rows[..|rows|] == rows;
      rows := kept;
      if prunedBelow < cutoffSeq {
        prunedBelow := cutoffSeq;
      }
    }

    method ProcessSyncEventsRequest(user: int, afterSeq: int, limit: int) returns (reply: Reply)
      ensures reply == Respond(Contents(), user, afterSeq, limit)
    {
      if afterSeq < 0 {
        return InvalidRequest;
      }
      var effective := EffectiveLimit(limit);
      if afterSeq > 0 && afterSeq < prunedBelow {
        var maxSeq := MaxSeq(rows);
        return NeedsFullSync(if maxSeq > prunedBelow then maxSeq else prunedBelow);
      }
      var events := GetSyncEvents(user, afterSeq, effective);
      return Page(events, if events == [] then afterSeq else events[|events| - 1].seqNo, |events| >= effective);
    }
  }

  // ---------------------------------------------------------------- the client

  /** A client's cursor and the events it has ingested since it last resynced in full. */
  datatype Client = Client(user: int, cursor: int, received: seq<Event>)

  /** What the client makes of a reply, and whether it asks for another page. */
  function Handle(c: Client, reply: Reply): (Client, bool) {
    match reply
    case InvalidRequest => (c, false)
    case NeedsFullSync(fullSyncSeq) =>
      (Client(c.user, if fullSyncSeq > c.cursor then fullSyncSeq else c.cursor, []), false)
    case Page(events, lastSeq, hasMore) =>
      (Client(c.user, if lastSeq > c.cursor then lastSeq else c.cursor, c.received + events), hasMore)
  }

  class SyncClient {
    const user: int
    var cursor: int
    var received: seq<Event>

    ghost function State(): Client
      reads this
    {
      Client(user, cursor, received)
    }

    constructor (user: int, cursor: int)
      ensures State() == Client(user, cursor, [])
    {
      this.user, this.cursor, received := user, cursor, [];
    }

    method HandleSyncEventsResponse(reply: Reply) returns (again: bool)
      modifies this
      ensures (State(), again) == Handle(old(State()), reply)
    {
      match reply
      case InvalidRequest =>
        return false;
      case NeedsFullSync(fullSyncSeq) =>
        if fullSyncSeq > cursor {
          cursor := fullSyncSeq;
        }
        received := [];
        return false;
      case Page(events, lastSeq, hasMore) =>
        received := received + events;
        if lastSeq > cursor {
          cursor := lastSeq;
        }
        return hasMore;
    }

    /**
     * The hasMore loop against a log that does not change meanwhile.  It ends, and unless
     * the cursor had fallen behind the watermark the client then has every event after it.
     */
    method CatchUp(log: SyncLog, limit: int) returns (resynced: bool)
      requires cursor >= 0 && Ordered(log.rows)
      modifies this
      ensures old(cursor) > 0 ==> (resynced <==> old(cursor) < log.prunedBelow)
      ensures !resynced ==> received == old(received) + Matching(log.rows, user, old(cursor))
      ensures Matching(log.rows, user, cursor) == []
      ensures cursor >= old(cursor)
    {
      hide Matching;
      var again := true;
      resynced := false;
      ghost var due := Matching(log.rows, user, cursor);
      ghost var rounds := 0;
      while again
        invariant cursor >= old(cursor)
        invariant !resynced ==> received + Matching(log.rows, user, cursor) == old(received) + due
        invariant !again ==> Matching(log.rows, user, cursor) == []
        invariant again ==> !resynced && (rounds == 0 ==> cursor == old(cursor))
        invariant old(cursor) > 0 && rounds > 0 ==> (resynced <==> old(cursor) < log.prunedBelow)
        invariant rounds == 0 ==> again
        decreases again, |Matching(log.rows, user, cursor)|
      {
        var reply := log.ProcessSyncEventsRequest(user, cursor, limit);
        ghost var before := cursor;
        resynced := reply.NeedsFullSync?;
        if resynced {
          MaxSeqIsMax(log.rows);
          NothingMatchesAbove(log.rows, user, reply.fullSyncSeq);
        } else {
          PageAdvances(log.rows, user, cursor, EffectiveLimit(limit));
        }
        again := HandleSyncEventsResponse(reply);
        rounds := rounds + 1;
      }
    }
  }

  // ---------------------------------------------------------------- pages over an ordered log

  predicate Ordered(rows: seq<Event>) {
    forall i, j | 0 <= i < j < |rows| :: rows[i].seqNo < rows[j].seqNo
  }

  lemma {:induction false} NothingMatchesAbove(rows: seq<Event>, user: int, afterSeq: int)
    requires forall e | e in rows :: e.seqNo <= afterSeq
    ensures Matching(rows, user, afterSeq) == []
  {
    if rows != [] {
      NothingMatchesAbove(rows[..|rows| - 1], user, afterSeq);
    }
  }

  lemma {:induction false} MaxSeqIsMax(rows: seq<Event>)
    ensures forall e | e in rows :: e.seqNo <= MaxSeq(rows)
    ensures MaxSeq(rows) == 0 || exists e :: e in rows && e.seqNo == MaxSeq(rows)
  {
    if rows != [] {
      var last := rows[|rows| - 1];
      MaxSeqIsMax(rows[..|rows| - 1]);
      assert last in rows;
    }
  }

  lemma {:induction false} MatchingIsOrdered(rows: seq<Event>, user: int, afterSeq: int)
    requires Ordered(rows)
    ensures Ordered(Matching(rows, user, afterSeq))
    ensures forall e :: e in Matching(rows, user, afterSeq) <==> e in rows && e.user == user && e.seqNo > afterSeq
  {
    if rows != [] {
      var init, last := rows[..|rows| - 1], rows[|rows| - 1];
      MatchingIsOrdered(init, user, afterSeq);
      assert rows == init + [last];
      assert forall e | e in init :: e.seqNo < last.seqNo;
    }
  }

  /** Moving the cursor to the end of the first `n` matching events leaves exactly the others. */
  lemma {:induction false} MatchingAfterPage(rows: seq<Event>, user: int, afterSeq: int, n: nat)
    requires Ordered(rows) && 0 < n <= |Matching(rows, user, afterSeq)|
    ensures var m := Matching(rows, user, afterSeq); Matching(rows, user, m[n - 1].seqNo) == m[n..]
  {
    var init := rows[..|rows| - 1];
    var last := rows[|rows| - 1];
    var m, before := Matching(rows, user, afterSeq), Matching(init, user, afterSeq);
    if n <= |before| {
      MatchingAfterPage(init, user, afterSeq, n);
      MatchingIsOrdered(init, user, afterSeq);
      assert m[n - 1] == before[n - 1] && before[n - 1] in init;
      BelowTheLast(rows, before[n - 1]);
      assert m[n..] == before[n..] + m[|before|..];
    } else {
      assert m == before + [last] && m[n - 1] == last;
      forall e | e in init {
        BelowTheLast(rows, e);
      }
      NothingMatchesAbove(init, user, last.seqNo);
      assert m[n..] == [];
    }
  }

  lemma BelowTheLast(rows: seq<Event>, e: Event)
    requires Ordered(rows) && rows != [] && e in rows[..|rows| - 1]
    ensures e in rows && e.seqNo < rows[|rows| - 1].seqNo
  {
    var i :| 0 <= i < |rows| - 1 && rows[..|rows| - 1][i] == e;
    assert rows[i] == e;
  }

  lemma PageAdvances(rows: seq<Event>, user: int, afterSeq: int, limit: nat)
    requires Ordered(rows) && limit > 0
    ensures var m := Matching(rows, user, afterSeq);
            var page := Take(m, limit);
            var lastSeq := if page == [] then afterSeq else page[|page| - 1].seqNo;
            && lastSeq >= afterSeq
            && m == page + Matching(rows, user, lastSeq)
            && (|page| < limit ==> Matching(rows, user, lastSeq) == [])
  {
    var m := Matching(rows, user, afterSeq);
    MatchingIsOrdered(rows, user, afterSeq);
    var page := Take(m, limit);
    if page != [] {
      MatchingAfterPage(rows, user, afterSeq, |page|);
      assert page[|page| - 1] in m;
    }
  }

  // ---------------------------------------------------------------- what a prune takes away

  lemma {:induction false} FreshKeeps(rows: seq<Event>, cutoff: int)
    ensures forall e :: e in Fresh(rows, cutoff) <==> e in rows && e.createdAt >= cutoff
    ensures Ordered(rows) ==> Ordered(Fresh(rows, cutoff))
  {
    if rows != [] {
      var init, last := rows[..|rows| - 1], rows[|rows| - 1];
      FreshKeeps(init, cutoff);
      assert rows == init + [last];
      if Ordered(rows) {
        assert forall e | e in init :: e.seqNo < last.seqNo;
      }
    }
  }

  lemma {:induction false} MaxExpiredIsMax(rows: seq<Event>, cutoff: int)
    ensures MaxExpiredSeq(rows, cutoff) >= 0
    ensures forall e | e in rows && e.createdAt < cutoff :: e.seqNo <= MaxExpiredSeq(rows, cutoff)
    ensures MaxExpiredSeq(rows, cutoff) == 0 ||
            exists e :: e in rows && e.createdAt < cutoff && e.seqNo == MaxExpiredSeq(rows, cutoff)
  {
    if rows != [] {
      MaxExpiredIsMax(rows[..|rows| - 1], cutoff);
      assert rows[|rows| - 1] in rows;
    }
  }

  /** The event is older than that many days of 86400 seconds. */
  predicate Expired(e: Event, retentionDays: int, now: int) {
    e.createdAt + retentionDays * 86400 < now
  }

  /** At the first reading of the clock there is something to prune. */
  predicate HasExpired(log: Log, retentionDays: int, readAt: int) {
    retentionDays > 0 && exists e :: e in log.rows && e.seqNo > 0 && Expired(e, retentionDays, readAt)
  }

  /**
   * A prune by the age of the events.  A row goes exactly if it has expired by the second
   * reading of the clock and something had by the first; the watermark becomes the larger of
   * the old one and the largest number that had expired by the first; nothing else changes.
   */
  lemma {:induction false} PrunesByAge(log: Log, retentionDays: int, readAt: int, deletedAt: int)
    ensures var t := Prune(log, retentionDays, readAt, deletedAt);
            if !HasExpired(log, retentionDays, readAt) then t == log
            else
              && (forall e :: e in t.rows <==> e in log.rows && !Expired(e, retentionDays, deletedAt))
              && (Ordered(log.rows) ==> Ordered(t.rows))
              && t.lastSeq == log.lastSeq
              && t.prunedBelow >= log.prunedBelow
              && (forall e | e in log.rows && Expired(e, retentionDays, readAt) :: e.seqNo <= t.prunedBelow)
              && (t.prunedBelow == log.prunedBelow
                  || exists e :: e in log.rows && Expired(e, retentionDays, readAt) && e.seqNo == t.prunedBelow)
  {
    hide Ordered;
    MaxExpiredIsMax(log.rows, Cutoff(retentionDays, readAt));
    FreshKeeps(log.rows, Cutoff(retentionDays, deletedAt));
  }
}
