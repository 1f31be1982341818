/**
 * Runs of the account event stream: appends for any user, the three statements of each
 * prune, and the two of each page request of one client, interleaved in any order.  Nothing
 * is assumed about the clock.
 */
module SyncRuns {
  import opened SyncEvents

  datatype Step =
    | AppendStep(user: int, payload: string, now: int)
    /** A prune looks up the largest expired number, ... */
    | FindStep(retentionDays: int, readAt: int)
    /** ... deletes what has expired by then, ... */
    | DeleteStep(deletedAt: int)
    /** ... and raises the watermark. */
    | RaiseStep
    /** A page request of the client reads the watermark, ... */
    | AskStep(limit: int)
    /** ... and then the events, which it answers with. */
    | AnswerStep

  /** How far the prune in progress has come; there is at most one, on a connection of its own. */
  datatype Pruning = Idle | Found(retentionDays: int, cutoffSeq: nat) | Deleted(cutoffSeq: nat)

  /** The page request in progress, and the watermark it has read; a later one takes its place. */
  datatype Request = NoRequest | Asked(limit: int, watermark: nat)

  /**
   * `history` holds every event ever appended.  `base` is where the client's cursor stood at
   * the start or after its last full resync, of which there have been `resyncs`.
   */
  datatype System = System(
    log: Log,
    pruning: Pruning,
    asked: Request,
    history: seq<Event>,
    client: Client,
    base: int,
    resyncs: nat)

  function Initial(user: int, cursor: int): System {
    System(Log([], 0, 0), Idle, NoRequest, [], Client(user, cursor, []), cursor, 0)
  }

  /** What the request in progress would now be answered. */
  function ReplyTo(s: System): Reply {
    if s.asked.NoRequest? then InvalidRequest
    else Respond(s.log.(prunedBelow := s.asked.watermark), s.client.user, s.client.cursor, s.asked.limit)
  }

  function Apply(s: System, step: Step): System {
    match step
    case AppendStep(user, payload, now) =>
      s.(log := Append(s.log, user, payload, now),
         history := s.history + [Event(s.log.lastSeq + 1, user, payload, now)])
    case FindStep(retentionDays, readAt) =>
      var cutoffSeq := MaxExpiredSeq(s.log.rows, Cutoff(retentionDays, readAt));
      if s.pruning.Idle? && retentionDays > 0 && cutoffSeq > 0 then s.(pruning := Found(retentionDays, cutoffSeq))
      else s
    case DeleteStep(deletedAt) =>
      if s.pruning.Found? then
        s.(log := DeleteExpired(s.log, Cutoff(s.pruning.retentionDays, deletedAt)),
           pruning := Deleted(s.pruning.cutoffSeq))
      else s
    case RaiseStep =>
      if s.pruning.Deleted? then s.(log := RaiseWatermark(s.log, s.pruning.cutoffSeq), pruning := Idle) else s
    case AskStep(limit) => s.(asked := Asked(limit, s.log.prunedBelow))
    case AnswerStep =>
      var client := Handle(s.client, ReplyTo(s)).0;
      if ReplyTo(s).NeedsFullSync?
      then s.(asked := NoRequest, client := client, base := client.cursor, resyncs := s.resyncs + 1)
      else s.(asked := NoRequest, client := client)
  }

  function After(user: int, cursor: int, steps: seq<Step>): System {
    if steps == [] then Initial(user, cursor)
    else Apply(After(user, cursor, steps[..|steps| - 1]), steps[|steps| - 1])
  }

  lemma AfterStep(user: int, cursor: int, steps: seq<Step>, i: nat)
    requires i < |steps|
    ensures After(user, cursor, steps[..i + 1]) == Apply(After(user, cursor, steps[..i]), steps[i])
  {
    assert steps[..i + 1][..i] == steps[..i];
  }

  /** The three statements with nothing in between are one prune. */
  lemma StatementsMakePrune(s: System, retentionDays: int, readAt: int, deletedAt: int)
    requires s.pruning.Idle?
    ensures Apply(Apply(Apply(s, FindStep(retentionDays, readAt)), DeleteStep(deletedAt)), RaiseStep)
         == s.(log := Prune(s.log, retentionDays, readAt, deletedAt))
  {
  }

  // ---------------------------------------------------------------- what holds in every run

  /** The history is numbered 1, 2, 3, ..., and the table holds some of it, in order. */
  ghost predicate LogOrdered(log: Log, history: seq<Event>) {
    && |history| == log.lastSeq
    && (forall i | 0 <= i < |history| :: history[i].seqNo == i + 1)
    && log.prunedBelow <= log.lastSeq
    && Ordered(log.rows)
    && (forall e | e in log.rows :: e in history)
  }

  /** The client has some of its own events between its base and its cursor, in order. */
  ghost predicate Placed(s: System) {
    && LogOrdered(s.log, s.history)
    && (!s.pruning.Idle? ==> s.pruning.cutoffSeq <= s.log.lastSeq)
    && (s.asked.Asked? ==> s.asked.watermark <= s.log.prunedBelow)
    && 0 <= s.base <= s.client.cursor
    && (s.base < s.client.cursor ==> s.client.cursor <= s.log.lastSeq)
    && Ordered(s.client.received)
    && (forall e | e in s.client.received :: Due(s, e))
  }

  /** An event the client ought to have received. */
  predicate Due(s: System, e: Event) {
    e in s.history && e.user == s.client.user && s.base < e.seqNo <= s.client.cursor
  }

  /** The client has, strictly in order, exactly its own events after its base and up to its cursor. */
  ghost predicate Gapless(s: System) {
    Ordered(s.client.received) && forall e :: e in s.client.received <==> Due(s, e)
  }

  lemma OrderedConcat(a: seq<Event>, b: seq<Event>)
    requires Ordered(a) && Ordered(b) && forall d, e | d in a && e in b :: d.seqNo < e.seqNo
    ensures Ordered(a + b)
  {
    forall i, j | 0 <= i < |a| && 0 <= j < |b|
      ensures a[i].seqNo < b[j].seqNo
    {
      assert a[i] in a && b[j] in b;
    }
  }

  lemma NumbersAreWithin(log: Log, history: seq<Event>)
    requires LogOrdered(log, history)
    ensures forall e | e in history :: 0 < e.seqNo <= log.lastSeq
  {
  }

  lemma ResyncAdvances(s: System)
    requires Placed(s) && ReplyTo(s).NeedsFullSync?
    ensures var fullSyncSeq := ReplyTo(s).fullSyncSeq;
            && fullSyncSeq > s.client.cursor
            && s.asked.watermark <= fullSyncSeq <= s.log.lastSeq
            && (forall e | e in s.log.rows :: e.seqNo <= fullSyncSeq)
            && Apply(s, AnswerStep).client.cursor == Apply(s, AnswerStep).base == fullSyncSeq
  {
    MaxSeqIsMax(s.log.rows);
    NumbersAreWithin(s.log, s.history);
  }

  /** A page holds exactly the client's events in the table after its cursor and up to the page's end. */
  lemma PageContents(s: System)
    requires LogOrdered(s.log, s.history) && ReplyTo(s).Page?
    ensures var c, reply := s.client, ReplyTo(s);
            && c.cursor <= reply.lastSeq
            && (c.cursor < reply.lastSeq ==> reply.lastSeq <= s.log.lastSeq)
            && Ordered(reply.events)
            && forall e :: e in reply.events <==>
                 e in s.log.rows && e.user == c.user && c.cursor < e.seqNo <= reply.lastSeq
  {
    hide Matching, Take;
    PageSelects(s.log.rows, s.client.user, s.client.cursor, EffectiveLimit(s.asked.limit));
    NumbersAreWithin(s.log, s.history);
  }

  lemma {:induction false} PageSelects(rows: seq<Event>, user: int, cursor: int, limit: nat)
    requires Ordered(rows) && limit > 0
    ensures var page := Take(Matching(rows, user, cursor), limit);
            var lastSeq := if page == [] then cursor else page[|page| - 1].seqNo;
            && Ordered(page)
            && cursor <= lastSeq
            && (page != [] ==> page[|page| - 1] in rows)
            && forall e :: e in page <==> e in rows && e.user == user && cursor < e.seqNo <= lastSeq
  {
    hide Matching;
    var page := Take(Matching(rows, user, cursor), limit);
    var lastSeq := if page == [] then cursor else page[|page| - 1].seqNo;
    PageAdvances(rows, user, cursor, limit);
    MatchingIsOrdered(rows, user, cursor);
    MatchingIsOrdered(rows, user, lastSeq);
    LastIsLargest(page);
    var rest := Matching(rows, user, lastSeq);
    assert forall e :: e in page + rest <==> e in page || e in rest;
    assert page != [] ==> page[|page| - 1] in page;
  }

  lemma LastIsLargest(events: seq<Event>)
    requires Ordered(events)
    ensures forall e | e in events :: e.seqNo <= events[|events| - 1].seqNo
  {
  }

  lemma AppendKeepsPlaced(s: System, user: int, payload: string, now: int)
    requires Placed(s)
    ensures var e := Event(s.log.lastSeq + 1, user, payload, now);
            var t := Apply(s, AppendStep(user, payload, now));
            Placed(t) && t.history == s.history + [e] && !Due(t, e)
  {
    var e := Event(s.log.lastSeq + 1, user, payload, now);
    NumbersAreWithin(s.log, s.history);
    OrderedConcat(s.log.rows, [e]);
  }

  lemma PageKeepsPlaced(s: System)
    requires Placed(s) && ReplyTo(s).Page?
    ensures Placed(Apply(s, AnswerStep))
  {
    hide Respond;
    PageContents(s);
    OrderedConcat(s.client.received, ReplyTo(s).events);
  }

  /** What every step keeps, and what it can only move forward, however it falls in with the others. */
  lemma {:induction false} StepKeepsPlaced(s: System, step: Step)
    requires Placed(s)
    ensures var t := Apply(s, step);
            && Placed(t)
            && t.client.user == s.client.user
            && s.client.cursor <= t.client.cursor
            && s.log.prunedBelow <= t.log.prunedBelow
            && s.history <= t.history
            && (if step.AnswerStep? && ReplyTo(s).NeedsFullSync? then t.resyncs == s.resyncs + 1
                else t.resyncs == s.resyncs && t.base == s.base)
  {
    match step
    case AppendStep(user, payload, now) =>
      hide Placed;
      AppendKeepsPlaced(s, user, payload, now);
    case FindStep(retentionDays, readAt) =>
      MaxExpiredIsMax(s.log.rows, Cutoff(retentionDays, readAt));
      NumbersAreWithin(s.log, s.history);
    case DeleteStep(deletedAt) =>
      if s.pruning.Found? {
        FreshKeeps(s.log.rows, Cutoff(s.pruning.retentionDays, deletedAt));
      }
    case RaiseStep =>
    case AskStep(_) =>
    case AnswerStep =>
      hide LogOrdered, Respond;
      if ReplyTo(s).NeedsFullSync? {
        ResyncAdvances(s);
      } else if ReplyTo(s).Page? {
        PageContents(s);
        PageKeepsPlaced(s);
      }
  }

  lemma {:induction false} RunIsPlaced(user: int, cursor: int, steps: seq<Step>)
    requires cursor >= 0
    ensures Placed(After(user, cursor, steps))
    ensures var s := After(user, cursor, steps); s.client.user == user && (s.resyncs == 0 ==> s.base == cursor)
  {
    hide Apply, ReplyTo;
    if steps != [] {
      hide Placed;
      RunIsPlaced(user, cursor, steps[..|steps| - 1]);
      StepKeepsPlaced(After(user, cursor, steps[..|steps| - 1]), steps[|steps| - 1]);
      assert After(user, cursor, steps[..|steps| - 1]).resyncs >= 0;
    }
  }

  predicate Resyncs(user: int, cursor: int, steps: seq<Step>, i: int)
    requires 0 <= i < |steps|
  {
    steps[i].AnswerStep? && ReplyTo(After(user, cursor, steps[..i])).NeedsFullSync?
  }

  lemma {:induction false} OnlyForward(user: int, cursor: int, steps: seq<Step>, i: nat, j: nat)
    requires cursor >= 0 && i <= j <= |steps|
    ensures var s, t := After(user, cursor, steps[..i]), After(user, cursor, steps[..j]);
            && s.client.cursor <= t.client.cursor
            && s.log.prunedBelow <= t.log.prunedBelow
            && s.history <= t.history
            && s.resyncs <= t.resyncs
            && ((forall k | i <= k < j :: !Resyncs(user, cursor, steps, k)) ==> s.base == t.base)
            && (s.resyncs == t.resyncs ==> forall k | i <= k < j :: !Resyncs(user, cursor, steps, k))
  {
    hide Placed, Apply, ReplyTo, After;
    if i < j {
      OnlyForward(user, cursor, steps, i, j - 1);
      AfterStep(user, cursor, steps, j - 1);
      RunIsPlaced(user, cursor, steps[..j - 1]);
      StepKeepsPlaced(After(user, cursor, steps[..j - 1]), steps[j - 1]);
      assert !Resyncs(user, cursor, steps, j - 1) ==>
        After(user, cursor, steps[..j]).base == After(user, cursor, steps[..j - 1]).base;
    }
  }

  // ---------------------------------------------------------------- exactly when there is a gap

  /** The page served passes over an event of the client's that is no longer in the table. */
  ghost predicate Skips(s: System, step: Step) {
    && step.AnswerStep?
    && ReplyTo(s).Page?
    && exists e :: e in s.history && e !in s.log.rows
         && e.user == s.client.user && s.client.cursor < e.seqNo <= ReplyTo(s).lastSeq
  }

  /** Step `k` skips, and no full resync has set the client right since. */
  ghost predicate SkipStands(user: int, cursor: int, steps: seq<Step>, k: int) {
    && 0 <= k < |steps|
    && Skips(After(user, cursor, steps[..k]), steps[k])
    && forall j | k < j < |steps| :: !Resyncs(user, cursor, steps, j)
  }

  lemma PageGapless(s: System)
    requires Placed(s) && ReplyTo(s).Page?
    ensures Gapless(Apply(s, AnswerStep)) <==> Gapless(s) && !Skips(s, AnswerStep)
  {
    hide Respond, LogOrdered;
    PageContents(s);
    PageKeepsPlaced(s);
    var t, reply := Apply(s, AnswerStep), ReplyTo(s);
    assert forall e :: e in t.client.received <==> e in s.client.received || e in reply.events;
    assert forall e | e in s.log.rows :: e in s.history by { RowsAreHistory(s.log, s.history); }
    if !Gapless(s) {
      var e :| Due(s, e) && e !in s.client.received;
      assert Due(t, e) && e !in t.client.received;
    } else if Skips(s, AnswerStep) {
      var e :| e in s.history && e !in s.log.rows
        && e.user == s.client.user && s.client.cursor < e.seqNo <= reply.lastSeq;
      assert Due(t, e) && e !in t.client.received;
    }
  }

  lemma RowsAreHistory(log: Log, history: seq<Event>)
    requires LogOrdered(log, history)
    ensures forall e | e in log.rows :: e in history
  {
  }

  lemma StepGapless(s: System, step: Step)
    requires Placed(s)
    ensures Gapless(Apply(s, step)) <==>
              || (step.AnswerStep? && ReplyTo(s).NeedsFullSync?)
              || (Gapless(s) && !Skips(s, step))
  {
    match step
    case AppendStep(user, payload, now) =>
      AppendKeepsPlaced(s, user, payload, now);
      hide Placed;
      var e, t := Event(s.log.lastSeq + 1, user, payload, now), Apply(s, step);
      assert forall d :: Due(t, d) <==> Due(s, d) || (d == e && Due(t, e));
    case FindStep(_, _) =>
      assert forall e :: Due(Apply(s, step), e) <==> Due(s, e);
    case DeleteStep(_) =>
      assert forall e :: Due(Apply(s, step), e) <==> Due(s, e);
    case RaiseStep =>
      assert forall e :: Due(Apply(s, step), e) <==> Due(s, e);
    case AskStep(_) =>
      assert forall e :: Due(Apply(s, step), e) <==> Due(s, e);
    case AnswerStep =>
      hide Respond, LogOrdered;
      if ReplyTo(s).NeedsFullSync? {
        ResyncAdvances(s);
      } else if ReplyTo(s).Page? {
        PageGapless(s);
      } else {
        assert forall e :: Due(Apply(s, step), e) <==> Due(s, e);
      }
  }

  /**
   * In every run, from every cursor and whatever the clocks read, the client has a gap if and
   * only if since its last full resync some page passed over an event of its own that had
   * been deleted.
   */
  lemma {:induction false} GaplessExactly(user: int, cursor: int, steps: seq<Step>)
    requires cursor >= 0
    ensures Gapless(After(user, cursor, steps)) <==> forall k :: !SkipStands(user, cursor, steps, k)
  {
    hide Apply, ReplyTo, Placed, Gapless, Skips;
    if steps == [] {
      NothingIsGapless(user, cursor);
    } else {
      var n := |steps| - 1;
      var init := steps[..n];
      GaplessExactly(user, cursor, init);
      RunIsPlaced(user, cursor, init);
      StepGapless(After(user, cursor, init), steps[n]);
      forall k | 0 <= k < n
        ensures SkipStands(user, cursor, steps, k) <==>
                SkipStands(user, cursor, init, k) && !Resyncs(user, cursor, steps, n)
      {
        assert init[..k] == steps[..k];
        assert forall j | k < j < n :: init[..j] == steps[..j];
        assert forall j | k < j < n :: Resyncs(user, cursor, init, j) == Resyncs(user, cursor, steps, j);
      }
      assert SkipStands(user, cursor, steps, n) <==> Skips(After(user, cursor, init), steps[n]);
      assert Skips(After(user, cursor, init), steps[n]) ==> !Resyncs(user, cursor, steps, n) by {
        SkipIsNoResync(After(user, cursor, init), steps[n]);
      }
      if !Gapless(After(user, cursor, init)) {
        var k :| SkipStands(user, cursor, init, k);
        assert SkipStands(user, cursor, steps, k) <==> !Resyncs(user, cursor, steps, n);
      }
    }
  }

  lemma NothingIsGapless(user: int, cursor: int)
    ensures Gapless(After(user, cursor, []))
  {
  }

  lemma SkipIsNoResync(s: System, step: Step)
    ensures Skips(s, step) ==> step.AnswerStep? && !ReplyTo(s).NeedsFullSync?
  {
  }

  // ---------------------------------------------------------------- what makes a page skip

  /** Where the watermark stands, or will once the prune in progress has raised it. */
  function Bound(s: System): nat {
    if s.pruning.Deleted? && s.log.prunedBelow < s.pruning.cutoffSeq then s.pruning.cutoffSeq else s.log.prunedBelow
  }

  /** A row expires between the two clock readings of a prune, above the watermark it will leave. */
  predicate IsLate(s: System, step: Step) {
    && step.DeleteStep? && s.pruning.Found?
    && MaxExpiredSeq(s.log.rows, Cutoff(s.pruning.retentionDays, step.deletedAt)) > Bound(Apply(s, step))
  }

  /** A page is served on the strength of a watermark that is lower than the one now set or to be set. */
  predicate IsEarly(s: System, step: Step) {
    step.AnswerStep? && s.asked.Asked? && 0 < s.client.cursor && s.asked.watermark <= s.client.cursor < Bound(s)
  }

  /** Above that watermark every event ever appended is in the table. */
  ghost predicate Kept(s: System) {
    forall e | e in s.history && e.seqNo > Bound(s) :: e in s.log.rows
  }

  /** A step keeps it so if and only if it is no late delete. */
  lemma StepKeepsKeptExactly(s: System, step: Step)
    requires Placed(s) && Kept(s)
    ensures Kept(Apply(s, step)) <==> !IsLate(s, step)
  {
    var t := Apply(s, step);
    match step
    case AppendStep(user, payload, now) =>
      assert forall e | e in t.history :: e in s.history || e in t.log.rows;
    case FindStep(_, _) =>
    case DeleteStep(deletedAt) =>
      if s.pruning.Found? {
        var cutoff := Cutoff(s.pruning.retentionDays, deletedAt);
        FreshKeeps(s.log.rows, cutoff);
        MaxExpiredIsMax(s.log.rows, cutoff);
        if IsLate(s, step) {
          var e :| e in s.log.rows && e.createdAt < cutoff && e.seqNo == MaxExpiredSeq(s.log.rows, cutoff);
          assert e in t.history && e !in t.log.rows;
        }
      }
    case RaiseStep =>
    case AskStep(_) =>
    case AnswerStep =>
  }

  /** No delete up to step `n` was late. */
  predicate NoneLate(user: int, cursor: int, steps: seq<Step>, n: nat)
    requires n <= |steps|
  {
    forall k | 0 <= k < n :: !IsLate(After(user, cursor, steps[..k]), steps[k])
  }

  lemma {:induction false} RunKeeps(user: int, cursor: int, steps: seq<Step>, n: nat)
    requires cursor >= 0 && n <= |steps| && NoneLate(user, cursor, steps, n)
    ensures Kept(After(user, cursor, steps[..n]))
  {
    hide Apply, IsLate, Placed, Kept;
    if n == 0 {
      NothingIsKept(user, cursor);
    } else {
      RunKeeps(user, cursor, steps, n - 1);
      RunIsPlaced(user, cursor, steps[..n - 1]);
      AfterStep(user, cursor, steps, n - 1);
      StepKeepsKeptExactly(After(user, cursor, steps[..n - 1]), steps[n - 1]);
    }
  }

  lemma NothingIsKept(user: int, cursor: int)
    ensures Kept(After(user, cursor, []))
  {
  }

  /** A client that is past the coming watermark is not made to skip anything. */
  lemma KeptDoesNotSkip(s: System, step: Step)
    requires Kept(s) && (s.client.cursor > 0 || Bound(s) == 0) && s.client.cursor >= 0 && !IsEarly(s, step)
    ensures !Skips(s, step)
  {
    hide Matching;
  }

  /** Step `p` is the ask that an answer at `k` is to. */
  predicate Asks(steps: seq<Step>, p: int, k: int) {
    && 0 <= p < k <= |steps|
    && steps[p].AskStep?
    && forall r | p < r < k :: !steps[r].AskStep? && !steps[r].AnswerStep?
  }

  /** A request in progress has read the watermark of the time it was asked at, and the cursor is still that of then. */
  lemma {:induction false} RequestWasAsked(user: int, cursor: int, steps: seq<Step>, k: nat) returns (p: nat)
    requires k <= |steps| && After(user, cursor, steps[..k]).asked.Asked?
    ensures Asks(steps, p, k)
    ensures After(user, cursor, steps[..k]).asked.watermark == After(user, cursor, steps[..p]).log.prunedBelow
    ensures After(user, cursor, steps[..k]).client == After(user, cursor, steps[..p]).client
    decreases k
  {
    hide After, Bound, ReplyTo;
    assert k > 0 by { StartOfRun(user, cursor, steps); }
    AfterStep(user, cursor, steps, k - 1);
    if steps[k - 1].AskStep? {
      p := k - 1;
    } else {
      p := RequestWasAsked(user, cursor, steps, k - 1);
    }
  }

  /** The watermark was read between a delete and the raise above the cursor. */
  predicate AskedEarly(s: System) {
    s.pruning.Deleted? && s.log.prunedBelow <= s.client.cursor < Bound(s)
  }

  /** The delete of a prune that raises the watermark above the cursor. */
  predicate DeletesPast(s: System, step: Step, cursor: int) {
    step.DeleteStep? && s.pruning.Found? && Bound(s) <= cursor < Bound(Apply(s, step))
  }

  /** What the watermark is or will be goes up with deletes only. */
  lemma {:induction false} SomeDeletePassed(user: int, cursor: int, steps: seq<Step>, p: nat, k: nat, at: int)
    returns (j: nat)
    requires p <= k <= |steps| && Bound(After(user, cursor, steps[..p])) <= at < Bound(After(user, cursor, steps[..k]))
    ensures p <= j < k && DeletesPast(After(user, cursor, steps[..j]), steps[j], at)
    decreases k
  {
    hide After, ReplyTo, Fresh, MaxExpiredSeq;
    AfterStep(user, cursor, steps, k - 1);
    if at < Bound(After(user, cursor, steps[..k - 1])) {
      j := SomeDeletePassed(user, cursor, steps, p, k - 1, at);
    } else {
      j := k - 1;
    }
  }

  /**
   * Every skip has one of four causes: the client came from cursor 0; some delete before was
   * late; the request read the watermark between the delete and the raise of a prune; or a
   * prune deleted between the two statements of the request.
   */
  lemma {:induction false} SkipHasACause(user: int, cursor: int, steps: seq<Step>, k: nat)
    requires cursor >= 0 && k < |steps| && Skips(After(user, cursor, steps[..k]), steps[k])
    ensures || After(user, cursor, steps[..k]).client.cursor == 0
            || (exists j :: 0 <= j < k && IsLate(After(user, cursor, steps[..j]), steps[j]))
            || (exists p :: Asks(steps, p, k) && AskedEarly(After(user, cursor, steps[..p])))
            || (exists p, j :: Asks(steps, p, k) && p < j < k
                  && DeletesPast(After(user, cursor, steps[..j]), steps[j],
                                 After(user, cursor, steps[..k]).client.cursor))
  {
    hide Apply, IsLate, IsEarly, Skips, After;
    SkipIsLateOrEarly(user, cursor, steps, k);
    if IsEarly(After(user, cursor, steps[..k]), steps[k]) {
      EarlyHasACause(user, cursor, steps, k);
    }
  }

  lemma SkipIsLateOrEarly(user: int, cursor: int, steps: seq<Step>, k: nat)
    requires cursor >= 0 && k < |steps| && Skips(After(user, cursor, steps[..k]), steps[k])
    ensures || After(user, cursor, steps[..k]).client.cursor == 0
            || (exists j :: 0 <= j < k && IsLate(After(user, cursor, steps[..j]), steps[j]))
            || IsEarly(After(user, cursor, steps[..k]), steps[k])
  {
    hide Apply, IsLate, IsEarly, Skips, Kept, Placed;
    var s := After(user, cursor, steps[..k]);
    if NoneLate(user, cursor, steps, k) {
      RunKeeps(user, cursor, steps, k);
      RunIsPlaced(user, cursor, steps[..k]);
      CursorNotNegative(s);
      if s.client.cursor > 0 && !IsEarly(s, steps[k]) {
        KeptDoesNotSkip(s, steps[k]);
      }
    }
  }

  lemma EarlyHasACause(user: int, cursor: int, steps: seq<Step>, k: nat)
    requires k < |steps| && IsEarly(After(user, cursor, steps[..k]), steps[k])
    ensures || (exists p :: Asks(steps, p, k) && AskedEarly(After(user, cursor, steps[..p])))
            || (exists p, j :: Asks(steps, p, k) && p < j < k
                  && DeletesPast(After(user, cursor, steps[..j]), steps[j],
                                 After(user, cursor, steps[..k]).client.cursor))
  {
    hide Apply, After;
    var s := After(user, cursor, steps[..k]);
    var p := RequestWasAsked(user, cursor, steps, k);
    if s.client.cursor < Bound(After(user, cursor, steps[..p])) {
      assert AskedEarly(After(user, cursor, steps[..p]));
    } else {
      var j := SomeDeletePassed(user, cursor, steps, p, k, s.client.cursor);
      assert p < j;
    }
  }

  lemma CursorNotNegative(s: System)
    requires Placed(s)
    ensures s.client.cursor >= 0
  {
  }

  /** No delete is late, and no page is served early. */
  predicate Careful(user: int, cursor: int, steps: seq<Step>) {
    forall k | 0 <= k < |steps| ::
      !IsLate(After(user, cursor, steps[..k]), steps[k]) && !IsEarly(After(user, cursor, steps[..k]), steps[k])
  }

  /**
   * So in every careful run from a positive cursor the client has exactly its own events, among
   * all ever appended, after its base and up to its cursor.  If it was never told to resync in
   * full, the base is where it started.
   */
  lemma {:induction false} ReceivedWithoutGap(user: int, cursor: int, steps: seq<Step>)
    requires cursor > 0 && Careful(user, cursor, steps)
    ensures var s := After(user, cursor, steps);
            && Ordered(s.client.received)
            && (forall e :: e in s.client.received <==>
                  e in s.history && e.user == user && s.base < e.seqNo <= s.client.cursor)
            && (s.resyncs == 0 ==> s.base == cursor)
  {
    hide Apply, Skips, IsLate, IsEarly, Placed, After;
    forall k
      ensures !SkipStands(user, cursor, steps, k)
    {
      if SkipStands(user, cursor, steps, k) {
        SkipIsLateOrEarly(user, cursor, steps, k);
        AlwaysPositive(user, cursor, steps, k);
      }
    }
    GaplessExactly(user, cursor, steps);
    RunIsPlaced(user, cursor, steps);
  }

  lemma AlwaysPositive(user: int, cursor: int, steps: seq<Step>, k: nat)
    requires cursor > 0 && k <= |steps|
    ensures After(user, cursor, steps[..k]).client.cursor > 0
  {
    hide Apply, ReplyTo;
    OnlyForward(user, cursor, steps, 0, k);
    assert steps[..0] == [];
  }

  // ---------------------------------------------------------------- prunes in one piece

  /** A delete at the reading of the clock its prune began with is not late. */
  lemma FindThenDeleteIsNotLate(s: System, retentionDays: int, now: int)
    requires s.pruning.Idle?
    ensures !IsLate(Apply(s, FindStep(retentionDays, now)), DeleteStep(now))
  {
  }

  /** Every prune takes one reading of the clock and is done in one piece, while no request is in progress. */
  predicate InOnePiece(user: int, cursor: int, steps: seq<Step>) {
    forall k | 0 <= k < |steps| :: Fits(user, cursor, steps, k)
  }

  predicate Fits(user: int, cursor: int, steps: seq<Step>, k: int)
    requires 0 <= k < |steps|
  {
    match steps[k]
    case FindStep(_, now) => k + 1 < |steps| ==> steps[k + 1] == DeleteStep(now)
    case DeleteStep(_) =>
      && k > 0 && steps[k - 1].FindStep?
      && After(user, cursor, steps[..k]).asked.NoRequest?
      && (k + 1 < |steps| ==> steps[k + 1].RaiseStep?)
    case _ => true
  }

  /** Then a prune in progress is right after its look-up or its delete, and requests know the watermark that stands. */
  lemma {:induction false} BetweenPrunes(user: int, cursor: int, steps: seq<Step>, n: nat)
    requires n <= |steps| && InOnePiece(user, cursor, steps)
    ensures var s := After(user, cursor, steps[..n]);
            && (s.pruning.Found? ==>
                  n > 0 && steps[n - 1].FindStep? && After(user, cursor, steps[..n - 1]).pruning.Idle?)
            && (s.pruning.Deleted? ==> n > 0 && steps[n - 1].DeleteStep? && s.asked.NoRequest?)
            && (s.asked.Asked? ==> s.asked.watermark == s.log.prunedBelow)
  {
    hide After, ReplyTo, Fresh, MaxExpiredSeq;
    if n > 0 {
      BetweenPrunes(user, cursor, steps, n - 1);
      AfterStep(user, cursor, steps, n - 1);
      assert Fits(user, cursor, steps, n - 1) && (n > 1 ==> Fits(user, cursor, steps, n - 2));
    } else {
      StartOfRun(user, cursor, steps);
    }
  }

  lemma {:induction false} InOnePieceIsCareful(user: int, cursor: int, steps: seq<Step>)
    requires InOnePiece(user, cursor, steps)
    ensures Careful(user, cursor, steps)
  {
    hide After, Apply, IsLate, IsEarly;
    forall k | 0 <= k < |steps|
      ensures !IsLate(After(user, cursor, steps[..k]), steps[k]) && !IsEarly(After(user, cursor, steps[..k]), steps[k])
    {
      var s, step := After(user, cursor, steps[..k]), steps[k];
      BetweenPrunes(user, cursor, steps, k);
      assert Fits(user, cursor, steps, k) && (k > 0 ==> Fits(user, cursor, steps, k - 1));
      OnlyDeletesAreLate(s, step);
      OnlyPagesAreEarly(s, step);
      if step.DeleteStep? {
        AfterStep(user, cursor, steps, k - 1);
        if s.pruning.Found? {
          FindThenDeleteIsNotLate(After(user, cursor, steps[..k - 1]), steps[k - 1].retentionDays, step.deletedAt);
        } else {
          NothingFoundNothingLate(s, step);
        }
      } else if step.AnswerStep? && s.asked.NoRequest? {
        NobodyAskedNobodyEarly(s, step);
      }
    }
  }

  lemma NothingFoundNothingLate(s: System, step: Step)
    requires !s.pruning.Found?
    ensures !IsLate(s, step)
  {
  }

  lemma NobodyAskedNobodyEarly(s: System, step: Step)
    requires s.asked.NoRequest?
    ensures !IsEarly(s, step)
  {
  }

  // ---------------------------------------------------------------- the fallback

  /** Between the requests of two full resyncs some prune has raised the watermark. */
  lemma {:induction false} ResyncNeedsAnotherPrune(user: int, cursor: int, steps: seq<Step>, i: nat, j: nat)
    requires cursor >= 0 && i < j < |steps|
    requires Resyncs(user, cursor, steps, i) && Resyncs(user, cursor, steps, j)
    ensures exists p, q, k ::
              Asks(steps, p, i) && Asks(steps, q, j) && p < k < q && WatermarkMoves(user, cursor, steps, k)
  {
    hide Apply, After, LogOrdered, Placed, Respond;
    var s, t := After(user, cursor, steps[..i]), After(user, cursor, steps[..j]);
    RunIsPlaced(user, cursor, steps[..i]);
    ResyncAdvances(s);
    AfterStep(user, cursor, steps, i);
    ResyncAnswers(s, steps[i]);
    OnlyForward(user, cursor, steps, i + 1, j);
    ResyncIsBelow(t);
    var p := RequestWasAsked(user, cursor, steps, i);
    var q := RequestWasAsked(user, cursor, steps, j);
    SomePruneMoved(user, cursor, steps, p, q);
    var k :| p <= k < q && WatermarkMoves(user, cursor, steps, k);
    assert k != p;
  }

  lemma ResyncAnswers(s: System, step: Step)
    requires step.AnswerStep? && ReplyTo(s).NeedsFullSync?
    ensures s.asked.Asked? && Apply(s, step).client == Apply(s, AnswerStep).client
  {
  }

  lemma ResyncIsBelow(s: System)
    requires ReplyTo(s).NeedsFullSync?
    ensures s.asked.Asked? && s.client.cursor < s.asked.watermark
  {
  }

  ghost predicate WatermarkMoves(user: int, cursor: int, steps: seq<Step>, k: int) {
    && 0 <= k < |steps|
    && steps[k].RaiseStep?
    && After(user, cursor, steps[..k]).log.prunedBelow < After(user, cursor, steps[..k + 1]).log.prunedBelow
  }

  lemma {:induction false} SomePruneMoved(user: int, cursor: int, steps: seq<Step>, i: nat, j: nat)
    requires i <= j <= |steps|
    requires After(user, cursor, steps[..i]).log.prunedBelow < After(user, cursor, steps[..j]).log.prunedBelow
    ensures exists k :: i <= k < j && WatermarkMoves(user, cursor, steps, k)
  {
    hide After, Respond;
    if i < j {
      AfterStep(user, cursor, steps, j - 1);
      if After(user, cursor, steps[..j - 1]).log.prunedBelow < After(user, cursor, steps[..j]).log.prunedBelow {
        assert WatermarkMoves(user, cursor, steps, j - 1);
      } else {
        SomePruneMoved(user, cursor, steps, i, j - 1);
      }
    }
  }

  /** No event appended after a full resync is skipped by it: once the cursor has passed it, it was received. */
  lemma {:induction false} NothingLaterIsSkipped(user: int, cursor: int, steps: seq<Step>, i: nat, n: nat)
    requires cursor > 0 && Careful(user, cursor, steps) && i < |steps| && Resyncs(user, cursor, steps, i)
    requires forall k | i < k < |steps| :: !Resyncs(user, cursor, steps, k)
    requires |After(user, cursor, steps[..i]).history| <= n < |After(user, cursor, steps).history|
    ensures var s := After(user, cursor, steps); var e := s.history[n];
            e.user == user && e.seqNo <= s.client.cursor ==> e in s.client.received
  {
    hide Apply, After, Respond, Careful;
    var s := After(user, cursor, steps);
    assert steps[..|steps|] == steps;
    RunIsPlaced(user, cursor, steps[..i]);
    ResyncAdvances(After(user, cursor, steps[..i]));
    AfterStep(user, cursor, steps, i);
    OnlyForward(user, cursor, steps, i + 1, |steps|);
    RunIsPlaced(user, cursor, steps);
    ReceivedWithoutGap(user, cursor, steps);
    assert s.history[n] in s.history;
  }

  // ---------------------------------------------------------------- a client that starts from nothing

  /** The client starts at cursor 0, and this request is the first to bring it anything. */
  predicate Opens(user: int, steps: seq<Step>, k: int) {
    && 0 <= k < |steps|
    && steps[k].AnswerStep?
    && After(user, 0, steps[..k]).client.cursor == 0 < After(user, 0, steps[..k + 1]).client.cursor
  }

  /** Of the user's events up to a number, none has been deleted yet. */
  ghost predicate NonePruned(s: System, user: int, upTo: int) {
    forall e | e in s.history && e.user == user && e.seqNo <= upTo :: e in s.log.rows
  }

  lemma OpeningSkipsExactly(s: System)
    requires Placed(s) && s.client.cursor == 0
    ensures var t := Apply(s, AnswerStep);
            && !ReplyTo(s).NeedsFullSync?
            && (Skips(s, AnswerStep) <==> !NonePruned(s, s.client.user, t.client.cursor))
            && (t.client.cursor == 0 ==> !Skips(s, AnswerStep))
  {
    hide Matching;
    NumbersAreWithin(s.log, s.history);
    if ReplyTo(s).Page? {
      PageContents(s);
    }
  }

  /**
   * From cursor 0 the watermark is not checked, so it is the first page that decides: in every
   * careful run, for as long as the client is not told to resync in full, what it has is
   * gapless from the beginning if and only if, when that page was served, none of the user's
   * events up to its end had been deleted.
   */
  lemma {:induction false} FirstPageDecides(user: int, steps: seq<Step>, k: nat)
    requires Careful(user, 0, steps) && Opens(user, steps, k) && After(user, 0, steps).resyncs == 0
    ensures Gapless(After(user, 0, steps)) <==>
              NonePruned(After(user, 0, steps[..k]), user, After(user, 0, steps[..k + 1]).client.cursor)
    ensures After(user, 0, steps).base == 0
  {
    hide Apply, ReplyTo, After, Gapless, NonePruned, Skips, IsLate, IsEarly, Placed;
    var s := After(user, 0, steps[..k]);
    assert steps[..|steps|] == steps && steps[..0] == [];
    RunIsPlaced(user, 0, steps);
    RunIsPlaced(user, 0, steps[..k]);
    AfterStep(user, 0, steps, k);
    OpeningSkipsExactly(s);
    assert steps[k] == AnswerStep;
    OnlyForward(user, 0, steps, 0, |steps|);
    StartOfRun(user, 0, steps);
    forall i | 0 <= i < |steps| && i != k
      ensures !SkipStands(user, 0, steps, i)
    {
      OtherPagesAreWhole(user, steps, k, i);
    }
    GaplessExactly(user, 0, steps);
    assert SkipStands(user, 0, steps, k) <==> Skips(s, steps[k]);
  }

  lemma StartOfRun(user: int, cursor: int, steps: seq<Step>)
    ensures After(user, cursor, steps[..0]) == Initial(user, cursor)
  {
  }

  lemma {:induction false} OtherPagesAreWhole(user: int, steps: seq<Step>, k: nat, i: nat)
    requires Careful(user, 0, steps) && Opens(user, steps, k) && i < |steps| && i != k
    ensures !Skips(After(user, 0, steps[..i]), steps[i])
  {
    hide Apply, ReplyTo, After, Skips, IsLate, IsEarly, Placed;
    var s := After(user, 0, steps[..i]);
    RunIsPlaced(user, 0, steps[..i]);
    AfterStep(user, 0, steps, i);
    CursorNotNegative(s);
    if i < k {
      OnlyForward(user, 0, steps, i, k);
      OnlyForward(user, 0, steps, i + 1, k);
      if steps[i].AnswerStep? {
        assert steps[i] == AnswerStep;
        RunIsPlaced(user, 0, steps[..i + 1]);
        CursorNotNegative(Apply(s, steps[i]));
        OpeningSkipsExactly(s);
      } else {
        OnlyPagesSkip(s, steps[i]);
      }
    } else {
      OnlyForward(user, 0, steps, k + 1, i);
      if Skips(s, steps[i]) {
        SkipIsLateOrEarly(user, 0, steps, i);
      }
    }
  }

  lemma OnlyPagesSkip(s: System, step: Step)
    requires !step.AnswerStep?
    ensures !Skips(s, step)
  {
  }

  /** In particular nothing is missing if nothing at all had been pruned by then. */
  lemma {:induction false} WatermarkZeroIsEnough(user: int, steps: seq<Step>, k: nat)
    requires Careful(user, 0, steps) && Opens(user, steps, k) && After(user, 0, steps).resyncs == 0
    requires Bound(After(user, 0, steps[..k])) == 0
    ensures Gapless(After(user, 0, steps))
  {
    hide Apply, After, Gapless, IsLate, IsEarly, LogOrdered;
    var s := After(user, 0, steps[..k]);
    RunIsPlaced(user, 0, steps[..k]);
    RunKeeps(user, 0, steps, k);
    NumbersAreWithin(s.log, s.history);
    assert NonePruned(s, user, After(user, 0, steps[..k + 1]).client.cursor);
    FirstPageDecides(user, steps, k);
  }

  // ---------------------------------------------------------------- what is gone for good

  /** The event was appended, is no longer in the table, and the client does not have it. */
  ghost predicate Lost(s: System, e: Event) {
    e in s.history && e !in s.log.rows && e !in s.client.received
  }

  lemma StepKeepsLost(s: System, step: Step, e: Event)
    requires Placed(s) && Lost(s, e)
    ensures Lost(Apply(s, step), e)
  {
    hide Matching;
    NumbersAreWithin(s.log, s.history);
    match step
    case AppendStep(user, payload, now) =>
    case FindStep(_, _) =>
    case DeleteStep(deletedAt) =>
      if s.pruning.Found? {
        FreshKeeps(s.log.rows, Cutoff(s.pruning.retentionDays, deletedAt));
      }
    case RaiseStep =>
    case AskStep(_) =>
    case AnswerStep =>
      if ReplyTo(s).Page? {
        PageContents(s);
      }
  }

  /** What a prune has deleted before the client had it never reaches the client. */
  lemma {:induction false} LostForGood(user: int, cursor: int, steps: seq<Step>, i: nat, j: nat, e: Event)
    requires cursor >= 0 && i <= j <= |steps| && Lost(After(user, cursor, steps[..i]), e)
    ensures Lost(After(user, cursor, steps[..j]), e)
  {
    hide Lost, Apply, After, Placed;
    if i < j {
      LostForGood(user, cursor, steps, i, j - 1, e);
      RunIsPlaced(user, cursor, steps[..j - 1]);
      StepKeepsLost(After(user, cursor, steps[..j - 1]), steps[j - 1], e);
      AfterStep(user, cursor, steps, j - 1);
    }
  }

  /**
   * In particular what a delete takes away before the client had it: if the coming watermark
   * is not above the client's cursor the client is not told, and whether told or not, without a
   * full resync it has a gap for good once its cursor is past the event.
   */
  lemma DeletedIsMissed(user: int, cursor: int, steps: seq<Step>, k: nat, e: Event)
    requires cursor >= 0 && k < |steps| && steps[k].DeleteStep?
    requires var s, t := After(user, cursor, steps[..k]), After(user, cursor, steps[..k + 1]);
             e in s.log.rows && e !in t.log.rows && e.user == user && s.client.cursor < e.seqNo
    requires forall j | k < j < |steps| :: !Resyncs(user, cursor, steps, j)
    ensures var t := After(user, cursor, steps[..k + 1]);
            t.log.prunedBelow <= t.client.cursor ==> forall limit :: ReplyTo(Apply(t, AskStep(limit))).Page?
    ensures var s := After(user, cursor, steps); e.seqNo <= s.client.cursor ==> !Gapless(s)
  {
    hide Apply, After, Matching;
    var s, t := After(user, cursor, steps[..k]), After(user, cursor, steps[..k + 1]);
    AfterStep(user, cursor, steps, k);
    DeleteOnlyDeletes(s, steps[k]);
    RunIsPlaced(user, cursor, steps[..k + 1]);
    CursorNotNegative(t);
    AskedNowIsPaged(t);
    RunIsPlaced(user, cursor, steps[..k]);
    RunIsPlaced(user, cursor, steps);
    LostForGood(user, cursor, steps, k + 1, |steps|, e);
    OnlyForward(user, cursor, steps, k + 1, |steps|);
    assert steps[..|steps|] == steps;
    assert e.seqNo <= After(user, cursor, steps).client.cursor ==> Due(After(user, cursor, steps), e);
  }

  lemma AskedNowIsPaged(s: System)
    requires s.client.cursor >= 0
    ensures s.log.prunedBelow <= s.client.cursor ==> forall limit :: ReplyTo(Apply(s, AskStep(limit))).Page?
  {
  }

  lemma DeleteOnlyDeletes(s: System, step: Step)
    requires step.DeleteStep?
    ensures Apply(s, step).client == s.client && Apply(s, step).history == s.history && Apply(s, step).base == s.base
  {
  }

  // ---------------------------------------------------------------- every cause is real

  const DAY := SECONDS_PER_DAY

  /** Two events of the user's, the first one at time 0. */
  function Two(user: int, secondAt: int): seq<Event> {
    [Event(1, user, "", 0), Event(2, user, "", secondAt)]
  }

  lemma TwoExpire(user: int, secondAt: int, cutoff: int)
    requires cutoff > 0
    ensures MaxExpiredSeq(Two(user, secondAt), cutoff) == if secondAt < cutoff then 2 else 1
    ensures Fresh(Two(user, secondAt), cutoff) == if secondAt < cutoff then [] else [Event(2, user, "", secondAt)]
  {
    var a, b := Event(1, user, "", 0), Event(2, user, "", secondAt);
    assert [a, b][..1] == [a] && [a][..0] == [];
    assert MaxExpiredSeq([a], cutoff) == 1 && Fresh([a], cutoff) == [];
  }

  /** The two events are appended, and a prune has looked for what is a day old at time `DAY + 1`. */
  function Opening(user: int, secondAt: int): seq<Step> {
    [AppendStep(user, "", 0), AppendStep(user, "", secondAt), FindStep(1, DAY + 1)]
  }

  lemma {:induction false} AfterOpening(user: int, cursor: int, secondAt: int, rest: seq<Step>)
    requires cursor <= 1
    ensures var steps, rows := Opening(user, secondAt) + rest, Two(user, secondAt);
            && After(user, cursor, steps[..3]) ==
               System(Log(rows, 2, 0), Found(1, if secondAt < 1 then 2 else 1), NoRequest, rows,
                      Client(user, cursor, []), cursor, 0)
            && After(user, cursor, steps[..2]).pruning.Idle?
  {
    hide After, MaxExpiredSeq;
    var steps := Opening(user, secondAt) + rest;
    StartOfRun(user, cursor, steps);
    AfterStep(user, cursor, steps, 0);
    AfterStep(user, cursor, steps, 1);
    AfterStep(user, cursor, steps, 2);
    TwoExpire(user, secondAt, 1);
  }

  /** The one event left in the table is all a client before it gets. */
  lemma OneIsServed(log: Log, e: Event, cursor: int)
    requires log.rows == [e] && 0 <= cursor < e.seqNo && !(0 < cursor < log.prunedBelow)
    ensures Respond(log, e.user, cursor, 10) == Page([e], e.seqNo, false)
  {
    assert log.rows[..0] == [] && Matching([], e.user, cursor) == [];
    assert Matching(log.rows, e.user, cursor) == [e];
  }

  function FirstRun(user: int): seq<Step> {
    Opening(user, DAY + 1) + [DeleteStep(DAY + 1), RaiseStep, AskStep(10), AnswerStep]
  }

  lemma {:induction false} AfterFirstRun(user: int)
    ensures var last, rows, steps := Event(2, user, "", DAY + 1), Two(user, DAY + 1), FirstRun(user);
            && After(user, 0, steps[..3]).asked.NoRequest?
            && After(user, 0, steps[..6]).client == Client(user, 0, [])
            && After(user, 0, steps) == System(Log([last], 2, 1), Idle, NoRequest, rows, Client(user, 2, [last]), 0, 0)
  {
    hide After, MaxExpiredSeq, Fresh, Respond, IsEarly, IsLate;
    var last, steps := Event(2, user, "", DAY + 1), FirstRun(user);
    var client, rows := Client(user, 0, []), Two(user, DAY + 1);
    AfterOpening(user, 0, DAY + 1, [DeleteStep(DAY + 1), RaiseStep, AskStep(10), AnswerStep]);
    TwoExpire(user, DAY + 1, 1);
    AfterStep(user, 0, steps, 3);
    assert After(user, 0, steps[..4]) == System(Log([last], 2, 0), Deleted(1), NoRequest, rows, client, 0, 0);
    AfterStep(user, 0, steps, 4);
    assert After(user, 0, steps[..5]) == System(Log([last], 2, 1), Idle, NoRequest, rows, client, 0, 0);
    AfterStep(user, 0, steps, 5);
    AfterStep(user, 0, steps, 6);
    OneIsServed(Log([last], 2, 1), last, 0);
    assert steps[..7] == steps;
  }

  /** From cursor 0, with every prune in one piece: the first event is pruned, and not told of. */
  lemma FirstClientMissesPruned(user: int)
    ensures exists steps ::
              Careful(user, 0, steps) && Opens(user, steps, |steps| - 1) && !Gapless(After(user, 0, steps))
  {
    hide After, IsEarly, IsLate, Gapless, Careful;
    var steps := FirstRun(user);
    AfterFirstRun(user);
    assert steps[..7] == steps;
    assert InOnePiece(user, 0, steps);
    InOnePieceIsCareful(user, 0, steps);
    HasGap(After(user, 0, steps), Event(1, user, "", 0));
    assert Opens(user, steps, |steps| - 1);
  }

  /** From cursor 1, with no page served early: the second event expires between the two readings. */
  lemma LateDeleteSkips(user: int)
    ensures exists steps :: !Gapless(After(user, 1, steps))
              && forall k | 0 <= k < |steps| :: !IsEarly(After(user, 1, steps[..k]), steps[k])
  {
    hide After, MaxExpiredSeq, Fresh, Respond, IsEarly, IsLate, Gapless;
    var last := Event(3, user, "", DAY + 2);
    var rest := [DeleteStep(DAY + 2), RaiseStep, AppendStep(user, "", DAY + 2), AskStep(10), AnswerStep];
    var steps := Opening(user, 1) + rest;
    var client, rows := Client(user, 1, []), Two(user, 1);
    AfterOpening(user, 1, 1, rest);
    TwoExpire(user, 1, 2);
    AfterStep(user, 1, steps, 3);
    assert After(user, 1, steps[..4]) == System(Log([], 2, 0), Deleted(1), NoRequest, rows, client, 1, 0);
    AfterStep(user, 1, steps, 4);
    assert After(user, 1, steps[..5]) == System(Log([], 2, 1), Idle, NoRequest, rows, client, 1, 0);
    AfterStep(user, 1, steps, 5);
    assert [] + [last] == [last];
    assert After(user, 1, steps[..6]) == System(Log([last], 3, 1), Idle, NoRequest, rows + [last], client, 1, 0);
    AfterStep(user, 1, steps, 6);
    AfterStep(user, 1, steps, 7);
    OneIsServed(Log([last], 3, 1), last, 1);
    assert steps[..8] == steps;
    forall k | 0 <= k < 8
      ensures !IsEarly(After(user, 1, steps[..k]), steps[k])
    {
      OnlyPagesAreEarly(After(user, 1, steps[..k]), steps[k]);
    }
    HasGap(After(user, 1, steps), Event(2, user, "", 1));
  }

  lemma OnlyDeletesAreLate(s: System, step: Step)
    ensures !step.DeleteStep? ==> !IsLate(s, step)
  {
  }

  /** An answer is not early while nothing is being pruned and the watermark is the one it has read. */
  lemma OnlyPagesAreEarly(s: System, step: Step)
    ensures !step.AnswerStep? ==> !IsEarly(s, step)
    ensures !s.pruning.Deleted? && s.asked.Asked? && s.asked.watermark == s.log.prunedBelow ==> !IsEarly(s, step)
  {
  }

  lemma HasGap(s: System, e: Event)
    requires Due(s, e) && e !in s.client.received
    ensures !Gapless(s)
  {
  }

  /** No delete falls between an ask and an answer. */
  ghost predicate NoneOvertaken(steps: seq<Step>) {
    forall p, k, j | Asks(steps, p, k) && k < |steps| && steps[k].AnswerStep? && p < j < k :: !steps[j].DeleteStep?
  }

  /** From cursor 1, with no late delete and no delete during a request: the watermark is read before the raise. */
  lemma EarlyPageSkips(user: int)
    ensures exists steps :: !Gapless(After(user, 1, steps)) && NoneLate(user, 1, steps, |steps|) && NoneOvertaken(steps)
  {
    hide After, MaxExpiredSeq, Fresh, Respond, IsLate, Gapless;
    var last := Event(3, user, "", DAY + 1);
    var rest := [DeleteStep(DAY + 1), AppendStep(user, "", DAY + 1), AskStep(10), AnswerStep];
    var steps := Opening(user, 0) + rest;
    var client, rows := Client(user, 1, []), Two(user, 0);
    AfterOpening(user, 1, 0, rest);
    TwoExpire(user, 0, 1);
    AfterStep(user, 1, steps, 3);
    assert After(user, 1, steps[..4]) == System(Log([], 2, 0), Deleted(2), NoRequest, rows, client, 1, 0);
    AfterStep(user, 1, steps, 4);
    assert [] + [last] == [last];
    AfterStep(user, 1, steps, 5);
    AfterStep(user, 1, steps, 6);
    OneIsServed(Log([last], 3, 0), last, 1);
    assert steps[..7] == steps;
    FindThenDeleteIsNotLate(After(user, 1, steps[..2]), 1, DAY + 1);
    AfterStep(user, 1, steps, 2);
    forall k | 0 <= k < 7
      ensures !IsLate(After(user, 1, steps[..k]), steps[k])
    {
      OnlyDeletesAreLate(After(user, 1, steps[..k]), steps[k]);
    }
    HasGap(After(user, 1, steps), Event(2, user, "", 0));
    assert NoneOvertaken(steps);
  }

  /** From cursor 1, with no late delete and no request asked early: a whole prune falls between its two statements. */
  lemma OvertakenPageSkips(user: int)
    ensures exists steps: seq<Step> :: !Gapless(After(user, 1, steps)) && NoneLate(user, 1, steps, |steps|)
              && forall p | 0 <= p < |steps| && steps[p].AskStep? :: !AskedEarly(After(user, 1, steps[..p]))
  {
    hide After, IsLate, Gapless, AskedEarly;
    var steps := OvertakenRun(user);
    AfterOvertakenRun(user);
    HasGap(After(user, 1, steps), Event(2, user, "", 0));
    NotDeletedNotEarly(After(user, 1, steps[..3]));
  }

  lemma NotDeletedNotEarly(s: System)
    ensures !s.pruning.Deleted? ==> !AskedEarly(s)
  {
  }

  function OvertakenRun(user: int): seq<Step> {
    Opening(user, 0) + [AskStep(10), DeleteStep(DAY + 1), RaiseStep, AppendStep(user, "", DAY + 1), AnswerStep]
  }

  lemma {:induction false} AfterOvertakenRun(user: int)
    ensures var last, steps := Event(3, user, "", DAY + 1), OvertakenRun(user);
            && After(user, 1, steps[..3]).pruning.Found?
            && After(user, 1, steps) == System(Log([last], 3, 2), Idle, NoRequest, Two(user, 0) + [last],
                                               Client(user, 3, [last]), 1, 0)
            && NoneLate(user, 1, steps, |steps|)
  {
    hide After, MaxExpiredSeq, Fresh, Respond, IsLate;
    var last, steps := Event(3, user, "", DAY + 1), OvertakenRun(user);
    var client, rows := Client(user, 1, []), Two(user, 0);
    AfterOpening(user, 1, 0, [AskStep(10), DeleteStep(DAY + 1), RaiseStep, AppendStep(user, "", DAY + 1), AnswerStep]);
    TwoExpire(user, 0, 1);
    AfterStep(user, 1, steps, 2);
    AfterStep(user, 1, steps, 3);
    AfterStep(user, 1, steps, 4);
    assert After(user, 1, steps[..5]) == System(Log([], 2, 0), Deleted(2), Asked(10, 0), rows, client, 1, 0);
    AfterStep(user, 1, steps, 5);
    AfterStep(user, 1, steps, 6);
    assert [] + [last] == [last];
    AfterStep(user, 1, steps, 7);
    OneIsServed(Log([last], 3, 0), last, 1);
    assert steps[..8] == steps;
    DeleteAfterAskIsNotLate(After(user, 1, steps[..2]), 1, DAY + 1, 10);
    forall k | 0 <= k < 8
      ensures !IsLate(After(user, 1, steps[..k]), steps[k])
    {
      OnlyDeletesAreLate(After(user, 1, steps[..k]), steps[k]);
    }
  }

  lemma DeleteAfterAskIsNotLate(s: System, retentionDays: int, now: int, limit: int)
    requires s.pruning.Idle?
    ensures !IsLate(Apply(Apply(s, FindStep(retentionDays, now)), AskStep(limit)), DeleteStep(now))
  {
  }
}
