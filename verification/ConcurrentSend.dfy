/**
 * Concurrent private sends.  Each entry of an envelope is validated by a statement of its
 * own, before the transaction that stores the message and uses up the prekeys; other
 * handlers and the prekey tables go on in between.
 */
module ConcurrentSend {
  import opened Wrappers
  import opened MessageTable
  import opened PrekeyStore
  import opened PrekeyRuns
  import opened PrivateSend

  /** `Checking` has validated the first `next` entries; `isNew` says whether a row was inserted. */
  datatype Phase =
    | Checking(scan: Scan, next: nat)
    | Refused
    | Answered(id: int)
    | Stored(id: int, isNew: bool)
    | Failed

  datatype Handler = Handler(r: Request, phase: Phase)

  datatype System = System(keys: Store, messages: Table<Envelope>, handlers: seq<Handler>)

  datatype SendStep =
    | KeysStep(step: Step)
    | Begin(r: Request)
    /** The next entry is validated. */
    | CheckOne(handler: nat)
    /** The transaction, which may fail. */
    | Transact(handler: nat, ok: bool)

  /** The entries of the envelope, none if there is no envelope. */
  function Entries(r: Request): Envelope {
    if r.content.Some? && r.content.value.Some? then r.content.value.value else []
  }

  /** How far the handler comes before it looks at the entries. */
  function Opened(s: System, r: Request): Phase {
    if r.clientMessageId == "" || |r.clientMessageId| > MAX_CLIENT_MESSAGE_ID then Refused
    else if r.toUser <= 0 || r.toUser == r.sender || r.content.None? then Refused
    else
      var existing := Lookup(s.messages.rows, KeyOf(r));
      if existing.Some? then Answered(existing.value.id)
      else if r.content.value.None? || !Decoded(r.content.value.value) then Refused
      else Checking(Passed([], {}, false), 0)
  }

  predicate HasNext(h: Handler) {
    h.phase.Checking? && h.phase.next < |Entries(h.r)|
  }

  function ScanNext(keys: Store, h: Handler): Phase
    requires HasNext(h)
  {
    var scan := ScanOne(keys, h.r.toUser, h.r.device, h.phase.scan, Entries(h.r)[h.phase.next]);
    if scan.TurnedDown? then Refused else Checking(scan, h.phase.next + 1)
  }

  /** All entries have been validated. */
  predicate IsChecked(h: Handler) {
    h.phase.Checking? && h.phase.scan.Passed? && h.phase.next == |Entries(h.r)|
  }

  /** A message that is there already is not stored again, but its prekeys are used up all the same. */
  function Commit(s: System, h: Handler): (Store, Table<Envelope>, Phase)
    requires IsChecked(h)
  {
    var (messages, id) := MessageTable.Store(s.messages, KeyOf(h.r), Entries(h.r));
    (Consume(s.keys, h.phase.scan.prekeyIds), messages, Stored(id, Lookup(s.messages.rows, KeyOf(h.r)).None?))
  }

  ghost function Apply(s: System, step: SendStep): System {
    match step
    case KeysStep(keysStep) => s.(keys := PrekeyRuns.Apply(s.keys, keysStep))
    case Begin(r) => s.(handlers := s.handlers + [Handler(r, Opened(s, r))])
    case CheckOne(i) =>
      if i < |s.handlers| && HasNext(s.handlers[i])
      then s.(handlers := s.handlers[i := s.handlers[i].(phase := ScanNext(s.keys, s.handlers[i]))])
      else s
    case Transact(i, ok) =>
      if i >= |s.handlers| || !IsChecked(s.handlers[i]) then s
      else if s.handlers[i].phase.scan.prekeyIds == [] then
        s.(handlers := s.handlers[i := s.handlers[i].(phase := Refused)])
      else if !ok then s.(handlers := s.handlers[i := s.handlers[i].(phase := Failed)])
      else
        var (keys, messages, phase) := Commit(s, s.handlers[i]);
        System(keys, messages, s.handlers[i := s.handlers[i].(phase := phase)])
  }

  ghost function After(steps: seq<SendStep>): System {
    if steps == [] then System(Store(map[], 0, map[], map[]), Table([], 0), [])
    else Apply(After(steps[..|steps| - 1]), steps[|steps| - 1])
  }

  lemma {:induction false} AfterStep(steps: seq<SendStep>, i: nat)
    requires i < |steps|
    ensures After(steps[..i + 1]) == Apply(After(steps[..i]), steps[i])
  {
    assert steps[..i + 1][..i] == steps[..i];
  }

  // ---------------------------------------------------------------- every reachable state

  /** What has been scanned so far are the recipient ids of the entries so far. */
  ghost predicate HandlerSound(h: Handler) {
    h.phase.Checking? ==>
      && h.phase.next <= |Entries(h.r)|
      && h.phase.scan.Passed?
      && h.phase.scan.prekeyIds == RecipientIds(Entries(h.r)[..h.phase.next])
  }

  ghost predicate SystemSound(s: System) {
    && Sound(s.keys)
    && |s.messages.rows| == s.messages.lastId
    && forall i | 0 <= i < |s.handlers| :: HandlerSound(s.handlers[i])
  }

  lemma ScanKeepsHandlerSound(keys: Store, h: Handler)
    requires Sound(keys) && HandlerSound(h) && HasNext(h)
    ensures HandlerSound(h.(phase := ScanNext(keys, h)))
  {
    var entries, n := Entries(h.r), h.phase.next;
    assert entries[..n + 1][..n] == entries[..n];
  }

  lemma ConsumeIsAStep(keys: Store, ids: seq<int>)
    ensures PrekeyRuns.Apply(keys, Step(UsePrekeys(ids), 0)) == Consume(keys, ids)
  {
  }

  lemma {:induction false} StepKeepsSystemSound(s: System, step: SendStep)
    requires SystemSound(s)
    ensures SystemSound(Apply(s, step))
  {
    hide PrekeyRuns.Apply, Sound, Consume, RecipientIds, ScanOne;
    match step
    case KeysStep(keysStep) => StepKeepsSound(s.keys, keysStep);
    case Begin(r) => OpenedIsSound(s, r);
    case CheckOne(i) =>
      if i < |s.handlers| && HasNext(s.handlers[i]) {
        ScanKeepsHandlerSound(s.keys, s.handlers[i]);
      }
    case Transact(i, ok) =>
      if i < |s.handlers| && IsChecked(s.handlers[i]) {
        ConsumeIsAStep(s.keys, s.handlers[i].phase.scan.prekeyIds);
        StepKeepsSound(s.keys, Step(UsePrekeys(s.handlers[i].phase.scan.prekeyIds), 0));
      }
  }

  lemma OpenedIsSound(s: System, r: Request)
    ensures HandlerSound(Handler(r, Opened(s, r)))
  {
    assert Entries(r)[..0] == [];
  }

  lemma {:induction false} RunIsSound(steps: seq<SendStep>)
    ensures SystemSound(After(steps))
  {
    if steps != [] {
      hide Apply, SystemSound;
      RunIsSound(steps[..|steps| - 1]);
      StepKeepsSystemSound(After(steps[..|steps| - 1]), steps[|steps| - 1]);
    }
  }

  /** Used up or deleted prekeys stay so, through every step. */
  lemma {:induction false} SpentStays(steps: seq<SendStep>, n: nat, m: nat, id: int)
    requires n <= m <= |steps| && Spent(After(steps[..n]).keys, id)
    ensures Spent(After(steps[..m]).keys, id)
  {
    hide After, PrekeyRuns.Apply, Sound, Consume, ScanOne, Spent;
    if n < m {
      SpentStays(steps, n, m - 1, id);
      AfterStep(steps, m - 1);
      RunIsSound(steps[..m - 1]);
      var s := After(steps[..m - 1]);
      match steps[m - 1]
      case KeysStep(step) => StepKeepsSpent(s.keys, step, id);
      case Begin(_) =>
      case CheckOne(_) =>
      case Transact(i, _) =>
        if i < |s.handlers| && IsChecked(s.handlers[i]) {
          ConsumeIsAStep(s.keys, s.handlers[i].phase.scan.prekeyIds);
          StepKeepsSpent(s.keys, Step(UsePrekeys(s.handlers[i].phase.scan.prekeyIds), 0), id);
        }
    }
  }

  // ---------------------------------------------------------------- a handler on its own

  /** The phase of a handler that has validated `n` entries with nothing in between. */
  function ScannedTo(keys: Store, r: Request, n: nat): Phase
    requires n <= |Entries(r)|
  {
    var scan := Check(keys, r.toUser, r.device, Entries(r)[..n]);
    if scan.TurnedDown? then Refused else Checking(scan, n)
  }

  function Checks(i: nat, n: nat): seq<SendStep> {
    if n == 0 then [] else Checks(i, n - 1) + [CheckOne(i)]
  }

  /** One request from beginning to end with no other step in between. */
  function Alone(i: nat, r: Request): seq<SendStep> {
    [Begin(r)] + Checks(i, |Entries(r)|) + [Transact(i, true)]
  }

  lemma ScansOneMore(keys: Store, r: Request, n: nat)
    requires n < |Entries(r)|
    ensures var phase := ScannedTo(keys, r, n);
            ScannedTo(keys, r, n + 1) == if phase.Checking? then ScanNext(keys, Handler(r, phase)) else phase
  {
    assert Entries(r)[..n + 1][..n] == Entries(r)[..n];
  }

  lemma OneMoreStep(steps: seq<SendStep>, step: SendStep)
    ensures After(steps + [step]) == Apply(After(steps), step)
  {
    assert (steps + [step])[..|steps|] == steps;
  }

  lemma {:induction false} ChecksValidate(steps: seq<SendStep>, r: Request, n: nat)
    requires n <= |Entries(r)|
    ensures var s := After(steps);
            var first := Opened(s, r);
            After(steps + [Begin(r)] + Checks(|s.handlers|, n)) ==
            s.(handlers := s.handlers + [Handler(r, if first.Checking? then ScannedTo(s.keys, r, n) else first)])
  {
    hide After, Opened, Check, ScanOne;
    var s := After(steps);
    if n == 0 {
      assert steps + [Begin(r)] + Checks(|s.handlers|, 0) == steps + [Begin(r)];
      OneMoreStep(steps, Begin(r));
      OpensWithNothing(s, r);
    } else {
      ChecksValidate(steps, r, n - 1);
      ScansOneMore(s.keys, r, n - 1);
      var before := steps + [Begin(r)] + Checks(|s.handlers|, n - 1);
      assert steps + [Begin(r)] + Checks(|s.handlers|, n) == before + [CheckOne(|s.handlers|)];
      OneMoreStep(before, CheckOne(|s.handlers|));
    }
  }

  lemma OpensWithNothing(s: System, r: Request)
    ensures Opened(s, r).Checking? ==> Opened(s, r) == ScannedTo(s.keys, r, 0)
  {
    assert Entries(r)[..0] == [];
  }

  /** The answer of a handler, as the send of one piece gives it. */
  predicate Answers(outcome: Outcome, phase: Phase) {
    match outcome
    case Sent(id) => phase == Stored(id, true)
    case Reused(id) => phase == Answered(id)
    case _ => phase == Refused
  }

  /**
   * After any run, a handler that nothing disturbs and whose transaction succeeds does exactly
   * what the send in one piece does: to the prekeys, to the messages, and in its answer.
   */
  lemma {:induction false} AloneIsSend(steps: seq<SendStep>, r: Request)
    ensures var s := After(steps);
            var t := After(steps + Alone(|s.handlers|, r));
            var (server, outcome) := Send(Server(s.keys, s.messages), r);
            && t.keys == server.keys && t.messages == server.messages
            && |t.handlers| == |s.handlers| + 1 && t.handlers[..|s.handlers|] == s.handlers
            && t.handlers[|s.handlers|].r == r
            && Answers(outcome, t.handlers[|s.handlers|].phase)
  {
    hide After, Check, Decoded, Consume, Lookup, ScanOne;
    var s := After(steps);
    var n := |Entries(r)|;
    var before := steps + [Begin(r)] + Checks(|s.handlers|, n);
    ChecksValidate(steps, r, n);
    assert steps + Alone(|s.handlers|, r) == before + [Transact(|s.handlers|, true)];
    OneMoreStep(before, Transact(|s.handlers|, true));
    assert Entries(r)[..n] == Entries(r);
  }

  // ---------------------------------------------------------------- validations and transactions

  /** Step `v` validates prekey `id` for handler `j`. */
  ghost predicate Validates(steps: seq<SendStep>, v: int, j: nat, id: int) {
    && 0 <= v < |steps|
    && steps[v] == CheckOne(j)
    && var s := After(steps[..v]);
       && j < |s.handlers| && HasNext(s.handlers[j])
       && var r, e := s.handlers[j].r, Entries(s.handlers[j].r)[s.handlers[j].phase.next];
          e.prekeyId == id && ValidateClaimed(s.keys, r.toUser, e.device, id)
  }

  /** Step `p` stores a new message of handler `i`. */
  ghost predicate StoresNew(steps: seq<SendStep>, p: int, i: nat) {
    && 0 <= p < |steps|
    && steps[p] == Transact(i, true)
    && var s := After(steps[..p]);
       && i < |s.handlers| && IsChecked(s.handlers[i]) && s.handlers[i].phase.scan.prekeyIds != []
       && Lookup(s.messages.rows, KeyOf(s.handlers[i].r)).None?
  }

  /** Step `p` stores a new message that references prekey `id` for a recipient. */
  ghost predicate StoresReference(steps: seq<SendStep>, p: int, i: nat, id: int) {
    StoresNew(steps, p, i) && id in RecipientIds(Entries(After(steps[..p]).handlers[i].r))
  }

  /** What a handler references it has validated before. */
  lemma {:induction false} CheckedWasValidated(steps: seq<SendStep>, n: nat, j: nat, id: int) returns (v: nat)
    requires n <= |steps| && j < |After(steps[..n]).handlers|
    requires var phase := After(steps[..n]).handlers[j].phase;
             phase.Checking? && phase.scan.Passed? && id in phase.scan.prekeyIds
    ensures v < n && Validates(steps, v, j, id)
    decreases n
  {
    hide After, PrekeyRuns.Apply, Consume, Lookup, Decoded;
    assert n > 0 by { NobodyAtFirst(steps); }
    AfterStep(steps, n - 1);
    var s := After(steps[..n - 1]);
    if j < |s.handlers| && s.handlers[j].phase.Checking? && s.handlers[j].phase.scan.Passed?
       && id in s.handlers[j].phase.scan.prekeyIds
    {
      v := CheckedWasValidated(steps, n - 1, j, id);
    } else {
      v := n - 1;
    }
  }

  lemma NobodyAtFirst(steps: seq<SendStep>)
    ensures After(steps[..0]).handlers == [] && After(steps[..0]).messages.rows == []
  {
  }

  lemma {:induction false} ReferenceWasValidated(steps: seq<SendStep>, p: nat, i: nat, id: int) returns (v: nat)
    requires StoresReference(steps, p, i, id)
    ensures v < p && Validates(steps, v, i, id)
    ensures id in After(steps[..p]).handlers[i].phase.scan.prekeyIds
  {
    hide After;
    RunIsSound(steps[..p]);
    var h := After(steps[..p]).handlers[i];
    assert HandlerSound(h) && Entries(h.r)[..|Entries(h.r)|] == Entries(h.r);
    v := CheckedWasValidated(steps, p, i, id);
  }

  /** A transaction uses up the prekeys it references, all but those that have been given back. */
  lemma {:induction false} StoringSpends(steps: seq<SendStep>, p: nat, i: nat, id: int)
    requires StoresReference(steps, p, i, id) && !IsUnused(After(steps[..p]).keys, id)
    ensures Spent(After(steps[..p + 1]).keys, id)
  {
    hide After, RecipientIds;
    var v := ReferenceWasValidated(steps, p, i, id);
    AfterStep(steps, p);
    RunIsSound(steps[..p]);
    RunIsSound(steps[..v]);
    KnownStays(steps, v, p, id);
  }

  /** The claim has timed out and the prekey been given back. */
  predicate IsUnused(s: Store, id: int) {
    id in s.prekeys && s.prekeys[id].status.Unused?
  }

  lemma {:induction false} KnownStays(steps: seq<SendStep>, n: nat, m: nat, id: int)
    requires n <= m <= |steps| && id <= After(steps[..n]).keys.lastId
    ensures id <= After(steps[..m]).keys.lastId
  {
    hide After, PrekeyRuns.Apply, Sound, Consume, ScanOne;
    if n < m {
      KnownStays(steps, n, m - 1, id);
      AfterStep(steps, m - 1);
      RunIsSound(steps[..m - 1]);
      var s := After(steps[..m - 1]);
      if steps[m - 1].KeysStep? {
        StepKeepsSound(s.keys, steps[m - 1].step);
      } else if steps[m - 1].Transact? {
        ConsumeKeepsLastId(s.keys);
      }
    }
  }

  lemma ConsumeKeepsLastId(keys: Store)
    ensures forall ids :: Consume(keys, ids).lastId == keys.lastId
  {
  }

  // ---------------------------------------------------------------- where rows come from

  /** Storing a new message adds one row, with what was sent. */
  lemma {:induction false} StoringAddsRow(steps: seq<SendStep>, p: nat, i: nat)
    requires StoresNew(steps, p, i)
    ensures var s, t := After(steps[..p]), After(steps[..p + 1]);
            var r := s.handlers[i].r;
            t.messages.rows == s.messages.rows + [NewRow(s.messages.lastId + 1, KeyOf(r), Entries(r))]
  {
    hide After, Lookup, Consume;
    AfterStep(steps, p);
  }

  lemma StepKeepsRows(s: System, step: SendStep)
    ensures s.messages.rows <= Apply(s, step).messages.rows
    ensures |Apply(s, step).messages.rows| <= |s.messages.rows| + 1
  {
    hide Lookup, Consume, PrekeyRuns.Apply;
  }

  lemma {:induction false} RowsGrow(steps: seq<SendStep>, n: nat, m: nat)
    requires n <= m <= |steps|
    ensures After(steps[..n]).messages.rows <= After(steps[..m]).messages.rows
  {
    hide After, Apply;
    if n < m {
      RowsGrow(steps, n, m - 1);
      AfterStep(steps, m - 1);
      StepKeepsRows(After(steps[..m - 1]), steps[m - 1]);
    }
  }

  lemma {:induction false} RowWasStored(steps: seq<SendStep>, n: nat, x: nat) returns (p: nat, i: nat)
    requires n <= |steps| && x < |After(steps[..n]).messages.rows|
    ensures p < n && StoresNew(steps, p, i) && |After(steps[..p]).messages.rows| == x
    ensures After(steps[..n]).messages.rows[x].content == Entries(After(steps[..p]).handlers[i].r)
    decreases n
  {
    hide After, Lookup, Consume, PrekeyRuns.Apply;
    assert n > 0 by { NobodyAtFirst(steps); }
    AfterStep(steps, n - 1);
    var s := After(steps[..n - 1]);
    StepKeepsRows(s, steps[n - 1]);
    if x < |s.messages.rows| {
      p, i := RowWasStored(steps, n - 1, x);
    } else {
      p, i := n - 1, steps[n - 1].handler;
      StoringAddsRow(steps, p, i);
    }
  }

  // ---------------------------------------------------------------- referenced twice

  predicate Twice(rows: seq<Row<Envelope>>, x: int, y: int, id: int) {
    0 <= x < y < |rows| && id in RecipientIds(rows[x].content) && id in RecipientIds(rows[y].content)
  }

  /**
   * Handlers `i` and `j` store messages with the same prekey, at `p` and at `q` after it, and
   * either `j` had validated it before `p`, or by `p` its claim had timed out.
   */
  ghost predicate Races(steps: seq<SendStep>, p: int, q: int, i: nat, j: nat, id: int) {
    && p < q
    && StoresReference(steps, p, i, id)
    && StoresReference(steps, q, j, id)
    && ((exists v :: v < p && Validates(steps, v, j, id)) || IsUnused(After(steps[..p]).keys, id))
  }

  lemma {:induction false} SecondHasRaced(steps: seq<SendStep>, p: nat, q: nat, i: nat, j: nat, id: int)
    requires p < q && StoresReference(steps, p, i, id) && StoresReference(steps, q, j, id)
    ensures Races(steps, p, q, i, j, id)
  {
    hide After, RecipientIds;
    if !IsUnused(After(steps[..p]).keys, id) {
      StoringSpends(steps, p, i, id);
      var v := ReferenceWasValidated(steps, q, j, id);
      if v > p {
        SpentStays(steps, p + 1, v, id);
      }
      assert v != p by { StoringIsNoCheck(steps, p, i, j, id); }
    }
  }

  lemma {:induction false} StoringIsNoCheck(steps: seq<SendStep>, p: nat, i: nat, j: nat, id: int)
    requires StoresReference(steps, p, i, id)
    ensures !Validates(steps, p, j, id)
  {
  }

  /**
   * Over every run, a prekey is referenced as a recipient entry by two stored messages if and
   * only if two handlers raced for it: the second had validated it before the first one's
   * transaction, or its claim had timed out before that transaction.
   */
  lemma {:induction false} ReferencedTwiceExactly(steps: seq<SendStep>, id: int)
    ensures (exists x, y :: Twice(After(steps).messages.rows, x, y, id)) <==>
            exists p, q, i, j :: Races(steps, p, q, i, j, id)
  {
    hide After, RecipientIds;
    var rows := After(steps).messages.rows;
    assert steps[..|steps|] == steps;
    if x, y :| Twice(rows, x, y, id) {
      var p, i := RowWasStored(steps, |steps|, x);
      var q, j := RowWasStored(steps, |steps|, y);
      if q < p {
        RowsGrow(steps, q, p);
      }
      SecondHasRaced(steps, p, q, i, j, id);
    }
    if p, q, i, j :| Races(steps, p, q, i, j, id) {
      RacersReferenceTwice(steps, p, q, i, j, id);
    }
  }

  lemma {:induction false} RacersReferenceTwice(steps: seq<SendStep>, p: nat, q: nat, i: nat, j: nat, id: int)
    requires p < q && StoresReference(steps, p, i, id) && StoresReference(steps, q, j, id)
    ensures Twice(After(steps).messages.rows, |After(steps[..p]).messages.rows|, |After(steps[..q]).messages.rows|, id)
  {
    hide After, RecipientIds;
    StoringAddsRow(steps, p, i);
    StoringAddsRow(steps, q, j);
    RowsGrow(steps, p + 1, q);
    RowsGrow(steps, q + 1, |steps|);
    assert steps[..|steps|] == steps;
  }

  // ---------------------------------------------------------------- both races can be run

  /** The request sends one entry to the device whose prekey it names. */
  predicate SendsOne(r: Request, e: Entry) {
    && r.content == Some(Some([e]))
    && r.toUser > 0 && r.toUser != r.sender
    && 0 < |r.clientMessageId| <= MAX_CLIENT_MESSAGE_ID
    && e.device != "" && e.prekeyId > 0
  }

  /** Where a handler for such a request stands at first, and once its entry has been validated. */
  function AtFirst(r: Request): Handler {
    Handler(r, Checking(Passed([], {}, false), 0))
  }

  function Validated(r: Request, e: Entry): Handler {
    Handler(r, Checking(Passed([e.prekeyId], {e.device}, false), 1))
  }

  lemma OpensAtFirst(s: System, r: Request, e: Entry)
    requires SendsOne(r, e) && Lookup(s.messages.rows, KeyOf(r)).None?
    ensures Handler(r, Opened(s, r)) == AtFirst(r)
  {
  }

  lemma OneIsValidated(keys: Store, r: Request, e: Entry)
    requires SendsOne(r, e) && ValidateClaimed(keys, r.toUser, e.device, e.prekeyId)
    ensures HasNext(AtFirst(r)) && AtFirst(r).(phase := ScanNext(keys, AtFirst(r))) == Validated(r, e)
  {
    assert [] + [e.prekeyId] == [e.prekeyId] && {} + {e.device} == {e.device};
  }

  lemma ValidatedNames(r: Request, e: Entry)
    requires SendsOne(r, e)
    ensures IsChecked(Validated(r, e)) && e.prekeyId in RecipientIds(Entries(r))
  {
    assert [e][..0] == [];
    assert RecipientIds([e]) == [] + [e.prekeyId];
  }

  /** A row under another key is not found. */
  lemma StillNotFound(t: Table<Envelope>, first: Key, second: Key, content: Envelope)
    requires second.clientMessageId != "" && first != second && Lookup(t.rows, second).None?
    ensures Lookup(Insert(t, first, content).rows, second).None?
  {
    var row := NewRow(t.lastId + 1, first, content);
    assert Insert(t, first, content).rows == t.rows + [row];
    assert forall other | other in t.rows + [row] :: other in t.rows || other == row;
  }

  /** What a transaction for such a request does. */
  lemma TransactsOne(s: System, i: nat, r: Request, e: Entry)
    requires i < |s.handlers| && s.handlers[i] == Validated(r, e) && SendsOne(r, e)
    requires Lookup(s.messages.rows, KeyOf(r)).None?
    ensures var t := Apply(s, Transact(i, true));
            && t.keys == Consume(s.keys, [e.prekeyId])
            && t.messages == Insert(s.messages, KeyOf(r), [e])
            && |t.handlers| == |s.handlers|
            && forall j | 0 <= j < |s.handlers| && j != i :: t.handlers[j] == s.handlers[j]
  {
    hide Lookup, Insert, Consume;
    ValidatedNames(r, e);
  }

  /** Two requests that may race: to the same device, under different keys that are both new. */
  predicate Rivals(s: System, first: Request, second: Request, e: Entry) {
    && SendsOne(first, e) && SendsOne(second, e) && first.toUser == second.toUser
    && KeyOf(first) != KeyOf(second)
    && Lookup(s.messages.rows, KeyOf(first)).None? && Lookup(s.messages.rows, KeyOf(second)).None?
    && ValidateClaimed(s.keys, first.toUser, e.device, e.prekeyId)
  }

  /** After any run: both validate a claimed prekey before either stores its message. */
  lemma {:induction false} OverlapReferencesTwice(steps: seq<SendStep>, first: Request, second: Request, e: Entry)
    requires Rivals(After(steps), first, second, e)
    ensures var n, m := |After(steps).handlers|, |After(steps).messages.rows|;
            var more := [Begin(first), Begin(second), CheckOne(n), CheckOne(n + 1),
                         Transact(n, true), Transact(n + 1, true)];
            Twice(After(steps + more).messages.rows, m, m + 1, e.prekeyId)
  {
    hide After, Lookup, Insert, Consume, RecipientIds, Opened, ScanNext, Sound;
    var s, n, k := After(steps), |After(steps).handlers|, |steps|;
    var all := steps + [Begin(first), Begin(second), CheckOne(n), CheckOne(n + 1),
                        Transact(n, true), Transact(n + 1, true)];
    assert all[..k] == steps;
    AfterStep(all, k);
    OpensAtFirst(s, first, e);
    AfterStep(all, k + 1);
    OpensAtFirst(After(all[..k + 1]), second, e);
    AfterStep(all, k + 2);
    OneIsValidated(s.keys, first, e);
    AfterStep(all, k + 3);
    OneIsValidated(s.keys, second, e);
    var t := After(all[..k + 4]);
    assert t == System(s.keys, s.messages, s.handlers + [Validated(first, e), Validated(second, e)]);
    AfterStep(all, k + 4);
    TransactsOne(t, n, first, e);
    StillNotFound(s.messages, KeyOf(first), KeyOf(second), [e]);
    ValidatedNames(first, e);
    ValidatedNames(second, e);
    StoringAddsRow(all, k + 4, n);
    RacersReferenceTwice(all, k + 4, k + 5, n, n + 1, e.prekeyId);
  }

  /** The prekey was claimed at `at`, and its device has none before it that is not used. */
  predicate IsNextOf(s: Store, user: int, e: Entry, at: int) {
    && ValidateClaimed(s, user, e.device, e.prekeyId)
    && s.prekeys[e.prekeyId].status == Claimed(at)
    && forall id | id in s.prekeys && BelongsTo(s.prekeys[id], user, e.device) && !s.prekeys[id].status.Used? ::
         e.prekeyId <= id
  }

  /** A claim for somebody else gives a timed-out prekey back. */
  lemma {:induction false} GivesBack(s: Store, user: int, e: Entry, at: int, other: int, now: int, readings: Readings)
    requires IsNextOf(s, user, e, at) && other != user && now - at >= CLAIM_TIMEOUT
    ensures var t := Claim(s, other, now, readings);
            && IsUnused(t, e.prekeyId)
            && t.prekeys.Keys == s.prekeys.Keys
            && forall id | id in s.prekeys ::
                 t.prekeys[id].(status := Used) == s.prekeys[id].(status := Used)
                 && (t.prekeys[id].status.Used? <==> s.prekeys[id].status.Used?)
  {
    hide Claim, Hands;
    ClaimEffect(s, other, now, readings, e.prekeyId);
    var t := Claim(s, other, now, readings);
    forall id | id in s.prekeys
      ensures t.prekeys[id].(status := Used) == s.prekeys[id].(status := Used)
      ensures t.prekeys[id].status.Used? <==> s.prekeys[id].status.Used?
    {
      ClaimEffect(s, other, now, readings, id);
    }
  }

  /** The next claim for the user hands it out once more. */
  lemma HandsOutAgain(s: Store, t: Store, user: int, e: Entry, at: int, now: int, readings: Readings)
    requires IsNextOf(s, user, e, at) && IsUnused(t, e.prekeyId) && t.prekeys.Keys == s.prekeys.Keys
    requires forall id | id in s.prekeys ::
               t.prekeys[id].(status := Used) == s.prekeys[id].(status := Used)
               && (t.prekeys[id].status.Used? <==> s.prekeys[id].status.Used?)
    ensures ValidateClaimed(Claim(t, user, now, readings), user, e.device, e.prekeyId)
  {
    hide Claim, Hands;
    ClaimEffect(t, user, now, readings, e.prekeyId);
    assert t.prekeys[e.prekeyId].user == user && t.prekeys[e.prekeyId].device == e.device;
  }

  lemma UnusedIsNotConsumed(s: Store, id: int)
    requires IsUnused(s, id)
    ensures Consume(s, [id]) == s
  {
    assert UseUp(s.prekeys, [id]) == s.prekeys;
  }

  /** The first one's part: validated, timed out, stored, and the prekey handed out again. */
  function FirstPart(n: nat, first: Request, other: int, now: int, readings: Readings): seq<SendStep> {
    [Begin(first), CheckOne(n), KeysStep(Step(ClaimFor(other, readings), now)), Transact(n, true),
     KeysStep(Step(ClaimFor(first.toUser, readings), now))]
  }

  lemma {:induction false} AfterFirstPart(steps: seq<SendStep>, first: Request, second: Request, e: Entry,
                       at: int, other: int, now: int, readings: Readings, rest: seq<SendStep>)
    requires Rivals(After(steps), first, second, e) && IsNextOf(After(steps).keys, first.toUser, e, at)
    requires other != first.toUser && now - at >= CLAIM_TIMEOUT
    ensures var s, n, k := After(steps), |After(steps).handlers|, |steps|;
            var all := steps + FirstPart(n, first, other, now, readings) + rest;
            var t := After(all[..k + 5]);
            && StoresReference(all, k + 3, n, e.prekeyId)
            && |After(all[..k + 3]).messages.rows| == |s.messages.rows|
            && ValidateClaimed(t.keys, first.toUser, e.device, e.prekeyId)
            && t.messages == Insert(s.messages, KeyOf(first), [e])
            && |t.handlers| == n + 1
  {
    hide After, Lookup, Insert, Consume, RecipientIds, Opened, ScanNext, Sound, Claim, IsNextOf;
    var s, n, k := After(steps), |After(steps).handlers|, |steps|;
    var all := steps + FirstPart(n, first, other, now, readings) + rest;
    assert all[..k] == steps;
    AfterStep(all, k);
    OpensAtFirst(s, first, e);
    AfterStep(all, k + 1);
    OneIsValidated(s.keys, first, e);
    AfterStep(all, k + 2);
    var back := Claim(s.keys, other, now, readings);
    GivesBack(s.keys, first.toUser, e, at, other, now, readings);
    assert After(all[..k + 3]) == System(back, s.messages, s.handlers + [Validated(first, e)]);
    AfterStep(all, k + 3);
    TransactsOne(After(all[..k + 3]), n, first, e);
    UnusedIsNotConsumed(back, e.prekeyId);
    AfterStep(all, k + 4);
    HandsOutAgain(s.keys, back, first.toUser, e, at, now, readings);
    ValidatedNames(first, e);
  }

  /**
   * After any run: the claim times out between the first one's validation and its
   * transaction, which then uses nothing up, and the next claim hands the prekey out again.
   */
  lemma {:induction false} TimeOutReferencesTwice(steps: seq<SendStep>, first: Request, second: Request, e: Entry,
                                                  at: int, other: int, now: int, readings: Readings)
    requires Rivals(After(steps), first, second, e) && IsNextOf(After(steps).keys, first.toUser, e, at)
    requires other != first.toUser && now - at >= CLAIM_TIMEOUT
    ensures var n, m := |After(steps).handlers|, |After(steps).messages.rows|;
            var more := FirstPart(n, first, other, now, readings)
                        + [Begin(second), CheckOne(n + 1), Transact(n + 1, true)];
            Twice(After(steps + more).messages.rows, m, m + 1, e.prekeyId)
  {
    hide After, Lookup, Insert, Consume, StoresReference, Claim, IsNextOf, Apply, Twice, ValidateClaimed;
    var s, n, k := After(steps), |After(steps).handlers|, |steps|;
    var rest := [Begin(second), CheckOne(n + 1), Transact(n + 1, true)];
    var part := FirstPart(n, first, other, now, readings);
    var all := steps + part + rest;
    assert all == steps + (part + rest);
    assert all[k + 5] == rest[0] && all[k + 6] == rest[1] && all[k + 7] == rest[2];
    AfterFirstPart(steps, first, second, e, at, other, now, readings, rest);
    StillNotFound(s.messages, KeyOf(first), KeyOf(second), [e]);
    StoresInOneGo(all, k + 5, n + 1, second, e);
    InsertAddsOne(s.messages, KeyOf(first), [e]);
    RacersReferenceTwice(all, k + 3, k + 7, n, n + 1, e.prekeyId);
  }

  /** A handler that begins, validates and stores with nothing in between. */
  lemma {:induction false} StoresInOneGo(all: seq<SendStep>, p: nat, i: nat, r: Request, e: Entry)
    requires p + 2 < |all| && all[p] == Begin(r) && all[p + 1] == CheckOne(i) && all[p + 2] == Transact(i, true)
    requires var s := After(all[..p]);
             && |s.handlers| == i && SendsOne(r, e) && Lookup(s.messages.rows, KeyOf(r)).None?
             && ValidateClaimed(s.keys, r.toUser, e.device, e.prekeyId)
    ensures StoresReference(all, p + 2, i, e.prekeyId)
    ensures After(all[..p + 2]).messages == After(all[..p]).messages
  {
    hide After, Lookup, Insert, Consume, RecipientIds, Opened, ScanNext, Sound, ValidateClaimed, SendsOne;
    var s := After(all[..p]);
    AfterStep(all, p);
    OpensAtFirst(s, r, e);
    AfterStep(all, p + 1);
    OneIsValidated(s.keys, r, e);
    ValidatedNames(r, e);
    assert After(all[..p + 2]) == System(s.keys, s.messages, s.handlers + [Validated(r, e)]);
  }

  lemma InsertAddsOne(t: Table<Envelope>, key: Key, content: Envelope)
    ensures |Insert(t, key, content).rows| == |t.rows| + 1
  {
  }
}
