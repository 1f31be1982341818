/**
 * Concurrent handlers storing messages: the look-ups, the insert and the commit of one send
 * are separate steps, other handlers and other writers run in between.
 *
 * Each handler has a connection of its own to a database in write-ahead mode.  A group send
 * runs statement by statement.  A private send looks up again and inserts in one transaction:
 * that look-up pins what the transaction sees, and the insert fails at once if anybody has
 * committed since or is writing; nobody else can write until the transaction ends.
 */
module IdempotentSend {
  import opened Wrappers
  import opened MessageTable

  /** Who holds the write lock. */
  datatype Writer = Nobody | Others | Sender(handler: nat)

  /** What is committed; `commits` counts the commits to any table. */
  datatype Database = Database(table: Table<string>, commits: nat, writer: Writer)

  /**
   * Where a handler stands.  `seen` and `at` are the rows and the number of commits at its
   * second look-up, `Inserted` is before the commit, and `Replied` a successful reply.
   */
  datatype Phase =
    | Started
    | NotFoundByHandler
    | NotFoundByStore(seen: seq<Row<string>>, at: nat)
    | InsertRefused(seen: seq<Row<string>>)
    | Inserted
    | Replied(id: int)
    | Failed

  /** Private sends are in a transaction from their second look-up on, group sends are not. */
  datatype Handler = Handler(key: Key, content: string, isPrivate: bool, phase: Phase)

  datatype System = System(db: Database, handlers: seq<Handler>)

  datatype Step =
    | Begin(key: Key, content: string, isPrivate: bool)
    | Advance(handler: nat)
    /** Some other connection takes the write lock, and gives it back with or without a commit. */
    | OthersWrite
    | OthersDone(committed: bool)

  function Answer(found: Option<Row<string>>, otherwise: Phase): Phase {
    if found.Some? then Replied(found.value.id) else otherwise
  }

  function Commit(db: Database, h: Handler): (Database, Phase) {
    (Database(Insert(db.table, h.key, h.content), db.commits + 1, Nobody), Replied(db.table.lastId + 1))
  }

  /** The next statement of handler `me`, and the phase it leaves the handler in. */
  function Statement(db: Database, me: nat, h: Handler): (Database, Phase) {
    match h.phase
    case Started => (db, Answer(Lookup(db.table.rows, h.key), NotFoundByHandler))
    case NotFoundByHandler =>
      (db, Answer(Lookup(db.table.rows, h.key), NotFoundByStore(db.table.rows, db.commits)))
    case NotFoundByStore(seen, at) =>
      if h.isPrivate then
        if at != db.commits || !db.writer.Nobody? || Conflicts(db.table.rows, h.key) then (db, InsertRefused(seen))
        else (db.(writer := Sender(me)), Inserted)
      else if !db.writer.Nobody? then (db, h.phase) // waits
      else if Conflicts(db.table.rows, h.key) then (db, InsertRefused(seen))
      else Commit(db, h)
    case InsertRefused(seen) =>
      (db, Answer(Lookup(if h.isPrivate then seen else db.table.rows, h.key), Failed))
    case Inserted => Commit(db, h)
    case Replied(_) => (db, h.phase)
    case Failed => (db, h.phase)
  }

  /** A request without a client message id is turned down before it starts. */
  function Apply(s: System, step: Step): System {
    match step
    case Begin(key, content, isPrivate) =>
      if key.clientMessageId == "" then s
      else s.(handlers := s.handlers + [Handler(key, content, isPrivate, Started)])
    case Advance(i) =>
      if i >= |s.handlers| then s
      else
        var (db, phase) := Statement(s.db, i, s.handlers[i]);
        System(db, s.handlers[i := s.handlers[i].(phase := phase)])
    case OthersWrite => if s.db.writer.Nobody? then s.(db := s.db.(writer := Others)) else s
    case OthersDone(committed) =>
      if s.db.writer.Others? then
        s.(db := s.db.(writer := Nobody, commits := if committed then s.db.commits + 1 else s.db.commits))
      else s
  }

  function After(steps: seq<Step>): System {
    if steps == [] then System(Database(Table([], 0), 0, Nobody), [])
    else Apply(After(steps[..|steps| - 1]), steps[|steps| - 1])
  }

  // ---------------------------------------------------------------- every reachable state

  /** At most one row per key, among keys that name a device. */
  ghost predicate KeysUnique(rows: seq<Row<string>>) {
    forall a, b, key | 0 <= a < |rows| && 0 <= b < |rows| && Matches(rows[a], key) && Matches(rows[b], key) :: a == b
  }

  ghost predicate IsStored(rows: seq<Row<string>>, key: Key) {
    exists row :: row in rows && Matches(row, key)
  }

  ghost predicate ReplyIsStored(rows: seq<Row<string>>, h: Handler) {
    h.phase.Replied? ==> exists row :: row in rows && Matches(row, h.key) && row.id == h.phase.id
  }

  /** What holds of handler `me` at any time. */
  ghost predicate HandlerSound(db: Database, me: nat, h: Handler) {
    && h.key.clientMessageId != ""
    && (db.writer == Sender(me) <==> h.phase.Inserted?)
    && (h.key.device != "" ==> ReplyIsStored(db.table.rows, h))
    && match h.phase
       case NotFoundByStore(seen, at) =>
         at <= db.commits && (at == db.commits ==> seen == db.table.rows) && Lookup(seen, h.key).None?
       case InsertRefused(seen) => if h.isPrivate then Lookup(seen, h.key).None? else IsStored(db.table.rows, h.key)
       case Inserted => h.isPrivate && !Conflicts(db.table.rows, h.key)
       case Failed => h.isPrivate
       case _ => true
  }

  ghost predicate HandlersSound(s: System) {
    forall i | 0 <= i < |s.handlers| :: HandlerSound(s.db, i, s.handlers[i])
  }

  ghost predicate Sound(s: System) {
    && KeysUnique(s.db.table.rows)
    && (s.db.writer.Sender? ==> s.db.writer.handler < |s.handlers|)
    && HandlersSound(s)
  }

  lemma InsertKeepsUnique(t: Table<string>, key: Key, content: string)
    requires KeysUnique(t.rows) && key.clientMessageId != "" && !Conflicts(t.rows, key)
    ensures KeysUnique(Insert(t, key, content).rows)
  {
    var rows := Insert(t, key, content).rows;
    assert forall i | 0 <= i < |t.rows| :: rows[i] == t.rows[i] && t.rows[i] in t.rows;
  }

  /** A step of one handler keeps its own part of the invariant. */
  lemma StatementKeepsSound(db: Database, me: nat, h: Handler)
    requires KeysUnique(db.table.rows) && HandlerSound(db, me, h)
    ensures var (after, phase) := Statement(db, me, h);
            && KeysUnique(after.table.rows)
            && HandlerSound(after, me, h.(phase := phase))
  {
    var (after, phase) := Statement(db, me, h);
    if after.table != db.table {
      InsertKeepsUnique(db.table, h.key, h.content);
      assert after.table.rows[|db.table.rows|] in after.table.rows;
    }
  }

  /** The table changes only with a commit, and only under the one who may write. */
  lemma StatementChanges(db: Database, me: nat, h: Handler)
    requires HandlerSound(db, me, h)
    ensures var after := Statement(db, me, h).0;
            && db.table.rows <= after.table.rows
            && ((after.table == db.table && after.commits == db.commits) || after.commits > db.commits)
            && (db.writer.Nobody? || db.writer == Sender(me) || after == db)
            && (after.writer == db.writer || after.writer.Nobody? || after.writer == Sender(me))
  {
  }

  lemma OthersStaySound(db: Database, after: Database, i: nat, h: Handler)
    requires HandlerSound(db, i, h)
    requires db.table.rows <= after.table.rows
    requires (after.table == db.table && after.commits == db.commits) || after.commits > db.commits
    requires (db.writer == Sender(i) ==> after == db) && (after.writer == Sender(i) ==> db.writer == Sender(i))
    ensures HandlerSound(after, i, h)
  {
    assert forall row | row in db.table.rows :: row in after.table.rows;
  }

  lemma {:induction false} StepKeepsSound(s: System, step: Step)
    requires Sound(s)
    ensures Sound(Apply(s, step))
  {
    hide HandlerSound, KeysUnique;
    var t := Apply(s, step);
    match step
    case Begin(key, content, isPrivate) =>
      if key.clientMessageId != "" {
        StartedIsSound(s.db, |s.handlers|, key, content, isPrivate);
      }
    case Advance(me) =>
      if me < |s.handlers| {
        assert HandlerSound(s.db, me, s.handlers[me]);
        StatementKeepsSound(s.db, me, s.handlers[me]);
        StatementChanges(s.db, me, s.handlers[me]);
        forall i | 0 <= i < |s.handlers| && i != me
          ensures HandlerSound(t.db, i, t.handlers[i])
        {
          OthersStaySound(s.db, t.db, i, s.handlers[i]);
        }
      }
    case OthersWrite =>
      forall i | 0 <= i < |s.handlers| {
        OthersStaySound(s.db, t.db, i, s.handlers[i]);
      }
    case OthersDone(_) =>
      forall i | 0 <= i < |s.handlers| {
        OthersStaySound(s.db, t.db, i, s.handlers[i]);
      }
  }

  lemma StartedIsSound(db: Database, i: nat, key: Key, content: string, isPrivate: bool)
    requires key.clientMessageId != "" && (db.writer.Sender? ==> db.writer.handler < i)
    ensures HandlerSound(db, i, Handler(key, content, isPrivate, Started))
  {
  }

  lemma {:induction false} RunIsSound(steps: seq<Step>)
    ensures Sound(After(steps))
  {
    if steps != [] {
      hide Sound, Apply;
      RunIsSound(steps[..|steps| - 1]);
      StepKeepsSound(After(steps[..|steps| - 1]), steps[|steps| - 1]);
    }
  }

  /** However the handlers interleave, no key that names a device is stored twice. */
  lemma {:induction false} OneRowPerKey(steps: seq<Step>, i: nat, j: nat, key: Key)
    requires i < |After(steps).db.table.rows| && j < |After(steps).db.table.rows|
    requires Matches(After(steps).db.table.rows[i], key) && Matches(After(steps).db.table.rows[j], key)
    ensures i == j
  {
    RunIsSound(steps);
  }

  /** Every successful reply for a key, whichever handler gives it and whenever, carries the same id. */
  lemma {:induction false} RepliesAgree(steps: seq<Step>, i: nat, j: nat)
    requires i < |After(steps).handlers| && j < |After(steps).handlers|
    requires var a, b := After(steps).handlers[i], After(steps).handlers[j];
             a.key == b.key && a.key.device != "" && a.phase.Replied? && b.phase.Replied?
    ensures After(steps).handlers[i].phase.id == After(steps).handlers[j].phase.id
  {
    RunIsSound(steps);
    hide After;
    var s := After(steps);
    var rows, a, b := s.db.table.rows, s.handlers[i], s.handlers[j];
    assert HandlerSound(s.db, i, a) && HandlerSound(s.db, j, b);
    var ra :| ra in rows && Matches(ra, a.key) && ra.id == a.phase.id;
    var rb :| rb in rows && Matches(rb, b.key) && rb.id == b.phase.id;
    var k :| 0 <= k < |rows| && rows[k] == ra;
    var l :| 0 <= l < |rows| && rows[l] == rb;
  }

  // ---------------------------------------------------------------- one handler over a run

  lemma AfterStep(steps: seq<Step>, i: nat)
    requires i < |steps|
    ensures After(steps[..i + 1]) == Apply(After(steps[..i]), steps[i])
  {
    assert steps[..i + 1][..i] == steps[..i];
  }

  /** How far a phase is along. */
  function Rank(phase: Phase): nat {
    match phase
    case Started => 0
    case NotFoundByHandler => 1
    case NotFoundByStore(_, _) => 2
    case InsertRefused(_) => 3
    case Inserted => 3
    case Replied(_) => 4
    case Failed => 4
  }

  /** A handler is never removed and only goes on; what it has once replied stands. */
  lemma {:induction false} HandlersGoOn(steps: seq<Step>, n: nat, m: nat, i: nat)
    requires n <= m <= |steps| && i < |After(steps[..n]).handlers|
    ensures i < |After(steps[..m]).handlers|
    ensures var a, b := After(steps[..n]).handlers[i], After(steps[..m]).handlers[i];
            && b == a.(phase := b.phase)
            && Rank(a.phase) <= Rank(b.phase)
            && (Rank(a.phase) == Rank(b.phase) ==> a.phase == b.phase)
            && (a.phase.InsertRefused? ==> !b.phase.Inserted?)
  {
    hide After;
    if n < m {
      HandlersGoOn(steps, n, m - 1, i);
      AfterStep(steps, m - 1);
    }
  }

  /** A reply once given is never taken back or changed by what happens later. */
  lemma {:induction false} RepliesStand(steps: seq<Step>, n: nat, i: nat)
    requires n <= |steps| && i < |After(steps[..n]).handlers|
    ensures i < |After(steps).handlers| && After(steps).handlers[i].key == After(steps[..n]).handlers[i].key
    ensures After(steps[..n]).handlers[i].phase.Replied? ==> After(steps).handlers[i] == After(steps[..n]).handlers[i]
  {
    HandlersGoOn(steps, n, |steps|, i);
    assert steps[..|steps|] == steps;
  }

  // ---------------------------------------------------------------- who fails

  /** No group send under whatever key ends in failure: a refused insert finds the row it lost to. */
  lemma {:induction false} RefusedInsertIsAnswered(steps: seq<Step>, i: nat)
    requires i < |After(steps).handlers| && !After(steps).handlers[i].isPrivate
    ensures !After(steps).handlers[i].phase.Failed?
    ensures After(steps).handlers[i].phase.InsertRefused? ==>
              IsStored(After(steps).db.table.rows, After(steps).handlers[i].key)
  {
    RunIsSound(steps);
    assert HandlerSound(After(steps).db, i, After(steps).handlers[i]);
  }

  /** Step `p` is the second look-up of handler `i`, and finds nothing. */
  predicate LooksUp(steps: seq<Step>, p: int, i: nat) {
    && 0 <= p < |steps|
    && i < |After(steps[..p]).handlers|
    && steps[p] == Advance(i)
    && After(steps[..p]).handlers[i].phase.NotFoundByHandler?
    && Lookup(After(steps[..p]).db.table.rows, After(steps[..p]).handlers[i].key).None?
  }

  /** Step `q` is where it tries to insert. */
  predicate TriesInsert(steps: seq<Step>, q: int, i: nat) {
    && 0 <= q < |steps|
    && i < |After(steps[..q]).handlers|
    && steps[q] == Advance(i)
    && After(steps[..q]).handlers[i].phase.NotFoundByStore?
  }

  /** Between the two somebody has committed, or at the second somebody else is writing. */
  predicate Disturbed(steps: seq<Step>, p: int, q: int)
    requires 0 <= p < |steps| && 0 <= q < |steps|
  {
    After(steps[..p]).db.commits < After(steps[..q]).db.commits || !After(steps[..q]).db.writer.Nobody?
  }

  ghost predicate Loses(steps: seq<Step>, p: int, q: int, i: nat) {
    p < q && LooksUp(steps, p, i) && TriesInsert(steps, q, i) && Disturbed(steps, p, q)
  }

  predicate IsLost(phase: Phase) {
    phase.InsertRefused? || phase.Failed?
  }

  /** A handler that waits to insert has looked up before, and remembers the commits of then. */
  lemma {:induction false} WaitingHasLookedUp(steps: seq<Step>, n: nat, i: nat) returns (p: nat)
    requires n <= |steps| && i < |After(steps[..n]).handlers| && After(steps[..n]).handlers[i].phase.NotFoundByStore?
    ensures p < n && LooksUp(steps, p, i) && After(steps[..n]).handlers[i].phase.at == After(steps[..p]).db.commits
    decreases n
  {
    hide After;
    assert n > 0 by { NobodyAtFirst(steps); }
    AfterStep(steps, n - 1);
    var s := After(steps[..n - 1]);
    if i < |s.handlers| && s.handlers[i].phase.NotFoundByStore? {
      p := WaitingHasLookedUp(steps, n - 1, i);
    } else {
      p := n - 1;
    }
  }

  lemma NobodyAtFirst(steps: seq<Step>)
    ensures After(steps[..0]).handlers == []
  {
  }

  /** And it does so only once. */
  lemma LooksUpOnce(steps: seq<Step>, p: nat, q: nat, i: nat)
    requires p < q < |steps| && LooksUp(steps, p, i) && TriesInsert(steps, q, i)
    ensures After(steps[..q]).handlers[i].phase.at == After(steps[..p]).db.commits
  {
    hide After;
    AfterStep(steps, p);
    HandlersGoOn(steps, p + 1, q, i);
  }

  /** At its insert a private handler is refused exactly if it was disturbed. */
  lemma {:induction false} InsertIsRefusedExactly(steps: seq<Step>, p: nat, q: nat, i: nat)
    requires p < q < |steps| && LooksUp(steps, p, i) && TriesInsert(steps, q, i)
    requires After(steps[..q]).handlers[i].isPrivate
    ensures i < |After(steps[..q + 1]).handlers|
    ensures var phase := After(steps[..q + 1]).handlers[i].phase;
            if Disturbed(steps, p, q) then phase.InsertRefused? else phase.Inserted?
  {
    hide After, Lookup;
    LooksUpOnce(steps, p, q, i);
    AfterStep(steps, q);
    RunIsSound(steps[..q]);
    var s := After(steps[..q]);
    assert HandlerSound(s.db, i, s.handlers[i]);
    if s.handlers[i].phase.at == s.db.commits {
      NotFoundIsNoConflict(s.db.table.rows, s.handlers[i].key);
    }
  }

  lemma NotFoundIsNoConflict(rows: seq<Row<string>>, key: Key)
    requires key.clientMessageId != "" && Lookup(rows, key).None?
    ensures !Conflicts(rows, key)
  {
  }

  /** A private handler that has lost was disturbed when it tried to insert. */
  lemma {:induction false} LostWasDisturbed(steps: seq<Step>, n: nat, i: nat) returns (p: nat, q: nat)
    requires n <= |steps| && i < |After(steps[..n]).handlers|
    requires After(steps[..n]).handlers[i].isPrivate && IsLost(After(steps[..n]).handlers[i].phase)
    ensures q < n && Loses(steps, p, q, i)
    decreases n
  {
    hide After, Lookup;
    assert n > 0 by { NobodyAtFirst(steps); }
    AfterStep(steps, n - 1);
    var s := After(steps[..n - 1]);
    if i < |s.handlers| && IsLost(s.handlers[i].phase) {
      p, q := LostWasDisturbed(steps, n - 1, i);
    } else {
      p := WaitingHasLookedUp(steps, n - 1, i);
      q := n - 1;
      InsertIsRefusedExactly(steps, p, q, i);
    }
  }

  lemma {:induction false} RefusedNeverReplies(steps: seq<Step>, n: nat, m: nat, i: nat)
    requires n <= m <= |steps| && i < |After(steps[..n]).handlers|
    requires After(steps[..n]).handlers[i].isPrivate && After(steps[..n]).handlers[i].phase.InsertRefused?
    ensures i < |After(steps[..m]).handlers| && IsLost(After(steps[..m]).handlers[i].phase)
    ensures After(steps[..m]).handlers[i].isPrivate
  {
    hide After, Lookup;
    if n < m {
      RefusedNeverReplies(steps, n, m - 1, i);
      AfterStep(steps, m - 1);
      RunIsSound(steps[..m - 1]);
      var s := After(steps[..m - 1]);
      assert HandlerSound(s.db, i, s.handlers[i]);
    }
  }

  /**
   * A private send fails, or is about to, if and only if between its look-up in the transaction
   * and its insert somebody committed anything, or at the insert somebody else was writing.
   */
  lemma {:induction false} PrivateSendFailsExactly(steps: seq<Step>, i: nat)
    requires i < |After(steps).handlers| && After(steps).handlers[i].isPrivate
    ensures IsLost(After(steps).handlers[i].phase) <==> exists p, q :: Loses(steps, p, q, i)
  {
    hide After, Disturbed;
    assert steps[..|steps|] == steps;
    if IsLost(After(steps).handlers[i].phase) {
      var p, q := LostWasDisturbed(steps, |steps|, i);
    }
    forall p, q | Loses(steps, p, q, i)
      ensures IsLost(After(steps).handlers[i].phase)
    {
      HandlersGoOn(steps, q, |steps|, i);
      InsertIsRefusedExactly(steps, p, q, i);
      HandlersGoOn(steps, q, q + 1, i);
      RefusedNeverReplies(steps, q + 1, |steps|, i);
    }
  }

  /** It can come to that after any run in which nobody is writing: any commit at the wrong moment does it. */
  lemma {:induction false} CommitBetweenFails(steps: seq<Step>, key: Key, content: string)
    requires key.clientMessageId != ""
    requires After(steps).db.writer.Nobody? && Lookup(After(steps).db.table.rows, key).None?
    ensures var n := |After(steps).handlers|;
            var more := [Begin(key, content, true), Advance(n), Advance(n), OthersWrite, OthersDone(true),
                         Advance(n), Advance(n)];
            && After(steps + more).handlers == After(steps).handlers + [Handler(key, content, true, Failed)]
            && After(steps + more).db.table == After(steps).db.table
  {
    hide After, Lookup;
    var s, n := After(steps), |After(steps).handlers|;
    var all := steps + [Begin(key, content, true), Advance(n), Advance(n), OthersWrite, OthersDone(true),
                        Advance(n), Advance(n)];
    var m := |steps|;
    assert all[..m] == steps && all[..m + 7] == all;
    AfterStep(all, m);
    AfterStep(all, m + 1);
    AfterStep(all, m + 2);
    AfterStep(all, m + 3);
    AfterStep(all, m + 4);
    AfterStep(all, m + 5);
    AfterStep(all, m + 6);
    assert all[m] == Begin(key, content, true) && all[m + 1] == all[m + 2] == all[m + 5] == all[m + 6] == Advance(n);
    assert all[m + 3] == OthersWrite && all[m + 4] == OthersDone(true);
  }

  // ---------------------------------------------------------------- one send after the other

  /** All the statements of one handler, with nothing in between. */
  function Undisturbed(db: Database, me: nat, h: Handler): (Database, Phase) {
    var (db1, p1) := Statement(db, me, h);
    var (db2, p2) := Statement(db1, me, h.(phase := p1));
    var (db3, p3) := Statement(db2, me, h.(phase := p2));
    Statement(db3, me, h.(phase := p3))
  }

  /** The stored device is never the empty string, so a look-up for it finds nothing. */
  ghost predicate NoEmptyDevice(rows: seq<Row<string>>) {
    forall row | row in rows :: row.device != Some("")
  }

  lemma {:induction false} RunStoresNoEmptyDevice(steps: seq<Step>)
    ensures NoEmptyDevice(After(steps).db.table.rows)
  {
    if steps != [] {
      RunStoresNoEmptyDevice(steps[..|steps| - 1]);
    }
  }

  /** Undisturbed, a send under a key is one look-up and, if that finds nothing, one insert. */
  lemma UndisturbedStores(db: Database, me: nat, key: Key, content: string, isPrivate: bool)
    requires key.clientMessageId != "" && db.writer.Nobody?
    ensures var h := Handler(key, content, isPrivate, Started);
            var found := Lookup(db.table.rows, key);
            Undisturbed(db, me, h) == if found.Some? then (db, Replied(found.value.id)) else Commit(db, h)
  {
    hide Lookup, Insert;
    if Lookup(db.table.rows, key).None? {
      NotFoundIsNoConflict(db.table.rows, key);
    }
  }

  /**
   * The key works if and only if it names a device: sending twice under it stores one row
   * when it does, and two rows under different ids when it does not.
   */
  lemma {:induction false} SecondSendReusesIffDeviceNamed(steps: seq<Step>, key: Key, content: string, isPrivate: bool)
    requires key.clientMessageId != "" && After(steps).db.writer.Nobody?
    ensures var h, me := Handler(key, content, isPrivate, Started), |After(steps).handlers|;
            var (db1, p1) := Undisturbed(After(steps).db, me, h);
            var (db2, p2) := Undisturbed(db1, me + 1, h);
            && p1.Replied? && p2.Replied?
            && (key.device != "" ==> db2 == db1 && p2 == p1)
            && (key.device == "" ==> |db2.table.rows| == |db1.table.rows| + 1 && p2.id != p1.id)
  {
    hide Undisturbed, After;
    RunStoresNoEmptyDevice(steps);
    RunIsSound(steps);
    var db, me := After(steps).db, |After(steps).handlers|;
    var (db1, p1) := Undisturbed(db, me, Handler(key, content, isPrivate, Started));
    UndisturbedStores(db, me, key, content, isPrivate);
    UndisturbedStores(db1, me + 1, key, content, isPrivate);
    if Lookup(db.table.rows, key).None? {
      InsertIsFound(db.table, key, content);
    }
  }

  lemma InsertIsFound(t: Table<string>, key: Key, content: string)
    requires KeysUnique(t.rows) && NoEmptyDevice(t.rows) && key.clientMessageId != "" && Lookup(t.rows, key).None?
    ensures var found := Lookup(Insert(t, key, content).rows, key);
            if key.device == "" then found.None? else found.Some? && found.value.id == t.lastId + 1
  {
    var more := Insert(t, key, content);
    assert forall row :: row in more.rows <==> row in t.rows || row == NewRow(t.lastId + 1, key, content);
    assert more.rows[|t.rows|] in more.rows;
  }
}
