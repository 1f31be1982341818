/**
 * Runs of the prekey tables: registrations, claims, uses and device removals in any order,
 * under a clock that does not go back.
 */
module PrekeyRuns {
  import opened Collections
  import opened PrekeyStore

  datatype Action =
    | RegisterKeys(user: int, device: string, identity: KeyText, prekeys: seq<KeyText>)
    | ClaimFor(user: int, at: Readings)
    | UsePrekeys(ids: seq<int>)
    | RemoveKeys(user: int, device: string)

  datatype Step = Step(action: Action, now: int)

  ghost function Apply(s: Store, step: Step): Store {
    match step.action
    case RegisterKeys(user, device, identity, prekeys) => Register(s, user, device, identity, prekeys).0
    case ClaimFor(user, at) => Claim(s, user, step.now, at)
    case UsePrekeys(ids) => Consume(s, ids)
    case RemoveKeys(user, device) => RemoveDevice(s, user, device)
  }

  ghost function After(steps: seq<Step>): Store {
    if steps == [] then Store(map[], 0, map[], map[]) else Apply(After(steps[..|steps| - 1]), steps[|steps| - 1])
  }

  ghost predicate ClockForward(steps: seq<Step>) {
    && (forall i, j | 0 <= i < j < |steps| :: steps[i].now <= steps[j].now)
    && (forall i, d | 0 <= i < |steps| && steps[i].action.ClaimFor? :: steps[i].now <= steps[i].action.at(d))
    && (forall i, j, d | 0 <= i < j < |steps| && steps[i].action.ClaimFor? :: steps[i].action.at(d) <= steps[j].now)
  }

  lemma AfterStep(steps: seq<Step>, i: nat)
    requires i < |steps|
    ensures After(steps[..i + 1]) == Apply(After(steps[..i]), steps[i])
  {
    assert steps[..i + 1][..i] == steps[..i];
  }

  // ---------------------------------------------------------------- every reachable state

  /** A prekey that can still be handed out or used belongs to its device's current identity. */
  ghost predicate OfCurrentIdentity(s: Store, id: int)
    requires id in s.prekeys
  {
    var p := s.prekeys[id];
    && id in s.uploadedUnder
    && (p.user, p.device) in s.identities
    && s.identities[(p.user, p.device)] == s.uploadedUnder[id] != ""
  }

  ghost predicate Sound(s: Store) {
    forall id | id in s.prekeys :: 0 < id <= s.lastId && (!s.prekeys[id].status.Used? ==> OfCurrentIdentity(s, id))
  }

  lemma {:induction false} UploadKeepsSound(s: Store, user: int, device: string, pubs: seq<string>)
    requires Sound(s) && (user, device) in s.identities && s.identities[(user, device)] != ""
    ensures var t := Upload(s, user, device, pubs);
            && Sound(t)
            && t.identities == s.identities
            && s.lastId <= t.lastId
            && (forall id | id <= s.lastId ::
                  (id in t.prekeys <==> id in s.prekeys) && (id in s.prekeys ==> t.prekeys[id] == s.prekeys[id]))
    decreases |pubs|
  {
    if pubs != [] {
      UploadKeepsSound(s, user, device, pubs[..|pubs| - 1]);
    }
  }

  lemma {:induction false} StepKeepsSound(s: Store, step: Step)
    requires Sound(s)
    ensures Sound(Apply(s, step))
    ensures s.lastId <= Apply(s, step).lastId
  {
    match step.action
    case RegisterKeys(user, device, identity, prekeys) =>
      var (registered, ok) := UpsertIdentity(s, user, device, identity.text);
      if identity.Decodes() && ok {
        assert Sound(registered);
        UploadKeepsSound(registered, user, device, Texts(prekeys));
      }
    case ClaimFor(user, at) =>
    case UsePrekeys(ids) =>
    case RemoveKeys(user, device) =>
  }

  lemma {:induction false} RunIsSound(steps: seq<Step>)
    ensures Sound(After(steps))
  {
    if steps != [] {
      RunIsSound(steps[..|steps| - 1]);
      StepKeepsSound(After(steps[..|steps| - 1]), steps[|steps| - 1]);
    }
  }

  /** So every bundle pairs a prekey with the identity key it was uploaded under. */
  lemma {:induction false} BundlesMatchGenerations(steps: seq<Step>, user: int, now: int, b: Bundle)
    requires Handed(After(steps), user, now, b)
    ensures b.prekeyId in After(steps).uploadedUnder
    ensures b.identity == After(steps).uploadedUnder[b.prekeyId]
  {
    RunIsSound(steps);
    var s := After(steps);
    assert !s.prekeys[b.prekeyId].status.Used?;
    assert OfCurrentIdentity(s, b.prekeyId);
  }

  // ---------------------------------------------------------------- one claim

  /**
   * What one claim does to one row: it is handed out if, with timed-out claims given back, it
   * is the unused prekey of its device with the smallest id and its owner is the user claimed
   * for; failing that it is given back if its claim timed out; all else stays as it was.
   */
  lemma {:induction false} ClaimEffect(s: Store, user: int, now: int, at: Readings, id: int)
    requires id in s.prekeys
    ensures Claim(s, user, now, at).prekeys.Keys == s.prekeys.Keys
    ensures var p, q := s.prekeys[id], Claim(s, user, now, at).prekeys[id];
            && q == p.(status := q.status)
            && q.status == if Hands(s, user, now, id) then Claimed(at(p.device))
                           else if TimedOut(p, now) then Unused
                           else p.status
    ensures Hands(s, user, now, id) <==>
              && s.prekeys[id].user == user
              && Available(s.prekeys[id], now)
              && forall other | other in s.prekeys && Available(s.prekeys[other], now)
                                && BelongsTo(s.prekeys[other], user, s.prekeys[id].device) :: id <= other
  {
    var rows := Reclaimed(s.prekeys, now);
    if Hands(s, user, now, id) {
      OneChoicePerDevice(rows, user, id);
    }
    var stock := Stock(rows, user, s.prekeys[id].device);
    assert forall other :: other in stock <==>
      other in s.prekeys && Available(s.prekeys[other], now) && BelongsTo(s.prekeys[other], user, s.prekeys[id].device);
  }

  predicate TimedOut(p: Prekey, now: int) {
    p.status.Claimed? && now - p.status.at >= CLAIM_TIMEOUT
  }

  predicate Available(p: Prekey, now: int) {
    p.status.Unused? || TimedOut(p, now)
  }

  /** A device with anything in stock, counting timed-out claims, gets exactly one prekey handed out. */
  lemma EveryStockedDeviceIsServed(s: Store, user: int, now: int, id: int)
    requires id in s.prekeys && s.prekeys[id].user == user && Available(s.prekeys[id], now)
    ensures exists chosen :: Hands(s, user, now, chosen) && s.prekeys[chosen].device == s.prekeys[id].device
  {
    var rows := Reclaimed(s.prekeys, now);
    var stock := Stock(rows, user, rows[id].device);
    assert id in stock;
    LeastExists(stock);
    var chosen :| IsLeast(chosen, stock);
    assert IsChosen(rows, user, chosen);
  }

  // ---------------------------------------------------------------- over a run

  /** Used or gone for good. */
  predicate Spent(s: Store, id: int) {
    id <= s.lastId && (id in s.prekeys ==> s.prekeys[id].status.Used?)
  }

  predicate Deleted(s: Store, id: int) {
    id <= s.lastId && id !in s.prekeys
  }

  lemma {:induction false} StepKeepsSpent(s: Store, step: Step, id: int)
    requires Sound(s) && Spent(s, id)
    ensures Spent(Apply(s, step), id)
    ensures Deleted(s, id) ==> Deleted(Apply(s, step), id)
  {
    match step.action
    case RegisterKeys(user, device, identity, prekeys) =>
      RegisterKeepsOthers(s, user, device, identity, prekeys, id);
    case ClaimFor(user, at) =>
      if id in s.prekeys {
        ClaimEffect(s, user, step.now, at, id);
      }
    case UsePrekeys(ids) =>
    case RemoveKeys(user, device) =>
  }

  /** The registration throws an unused or claimed prekey of this device away. */
  predicate Purges(s: Store, user: int, device: string, identity: KeyText, p: Prekey) {
    && identity.Decodes() && device != ""
    && ChangesIdentity(s, user, device, identity.text)
    && BelongsTo(p, user, device) && !p.status.Used?
  }

  /** Registration adds rows under new ids, and of the old ones deletes exactly those it purges. */
  lemma {:induction false} RegisterKeepsOthers(s: Store, user: int, device: string, identity: KeyText,
                                               prekeys: seq<KeyText>, id: int)
    requires Sound(s) && id <= s.lastId
    ensures var t := Register(s, user, device, identity, prekeys).0;
            && s.lastId <= t.lastId
            && (id in t.prekeys ==> id in s.prekeys && t.prekeys[id] == s.prekeys[id])
            && (id in s.prekeys ==> (id !in t.prekeys <==> Purges(s, user, device, identity, s.prekeys[id])))
  {
    var (registered, ok) := UpsertIdentity(s, user, device, identity.text);
    UpsertIdentityExactly(s, user, device, identity.text);
    if identity.Decodes() && ok {
      StepKeepsSound(s, Step(RegisterKeys(user, device, identity, []), 0));
      UploadKeepsSound(registered, user, device, Texts(prekeys));
    }
  }

  /** What becomes of a row that is there in one step of any kind; ids that are not there are new or stay gone. */
  lemma {:induction false} StepEffect(s: Store, step: Step, id: int)
    requires Sound(s) && id in s.prekeys
    ensures var p, t := s.prekeys[id], Apply(s, step);
            match step.action
            case RegisterKeys(user, device, identity, _) =>
              if Purges(s, user, device, identity, p) then id !in t.prekeys else Holds(t, id, p)
            case ClaimFor(user, at) =>
              Holds(t, id, p.(status := if Hands(s, user, step.now, id) then Claimed(at(p.device))
                                        else if TimedOut(p, step.now) then Unused
                                        else p.status))
            case UsePrekeys(ids) =>
              Holds(t, id, p.(status := if id in ids && p.status.Claimed? then Used else p.status))
            case RemoveKeys(user, device) =>
              if p.user == user && p.device == device then id !in t.prekeys else Holds(t, id, p)
  {
    hide OfCurrentIdentity;
    match step.action
    case RegisterKeys(user, device, identity, prekeys) =>
      hide Register;
      RegisterKeepsOthers(s, user, device, identity, prekeys, id);
    case ClaimFor(user, at) =>
      hide Claim, Hands;
      ClaimEffect(s, user, step.now, at, id);
    case UsePrekeys(ids) =>
    case RemoveKeys(user, device) =>
  }

  /** What is on record as a device's identity key after a step of any kind. */
  lemma {:induction false} IdentityEffect(s: Store, step: Step, user: int, device: string)
    ensures IdentityOf(Apply(s, step), user, device) ==
            match step.action
            case RegisterKeys(u, d, identity, _) =>
              if (u, d) == (user, device) && device != "" && identity.Decodes() then identity.text
              else IdentityOf(s, user, device)
            case ClaimFor(_, _) => IdentityOf(s, user, device)
            case UsePrekeys(_) => IdentityOf(s, user, device)
            case RemoveKeys(u, d) => if (u, d) == (user, device) then "" else IdentityOf(s, user, device)
  {
    hide Upload;
    match step.action
    case RegisterKeys(u, d, identity, prekeys) =>
      var registered := UpsertIdentity(s, u, d, identity.text).0;
      UploadKeepsIdentities(registered, u, d, Texts(prekeys));
    case ClaimFor(_, _) =>
    case UsePrekeys(_) =>
    case RemoveKeys(_, _) =>
  }

  /** A used prekey never becomes anything else, and a deleted id never returns. */
  lemma {:induction false} SpentForGood(steps: seq<Step>, i: nat, j: nat, id: int)
    requires i <= j <= |steps| && Spent(After(steps[..i]), id)
    ensures Spent(After(steps[..j]), id)
    ensures Deleted(After(steps[..i]), id) ==> Deleted(After(steps[..j]), id)
  {
    if i < j {
      SpentForGood(steps, i, j - 1, id);
      RunIsSound(steps[..j - 1]);
      StepKeepsSpent(After(steps[..j - 1]), steps[j - 1], id);
      AfterStep(steps, j - 1);
    }
  }

  /** After a claim at time `since`: not claimed earlier, and given back only 600 seconds on. */
  predicate HeldSince(s: Store, id: int, since: int, clock: int) {
    && id <= s.lastId
    && (id in s.prekeys ==>
          match s.prekeys[id].status
          case Unused => clock >= since + CLAIM_TIMEOUT
          case Claimed(at) => at >= since
          case Used => true)
  }

  lemma {:induction false} StepKeepsHeld(s: Store, step: Step, id: int, since: int, clock: int)
    requires Sound(s) && HeldSince(s, id, since, clock) && since <= clock <= step.now
    requires step.action.ClaimFor? ==> forall d :: step.now <= step.action.at(d)
    ensures HeldSince(Apply(s, step), id, since, step.now)
  {
    hide OfCurrentIdentity, Register, Hands;
    match step.action
    case RegisterKeys(user, device, identity, prekeys) =>
      RegisterKeepsOthers(s, user, device, identity, prekeys, id);
    case ClaimFor(user, at) =>
      if id in s.prekeys {
        ClaimEffect(s, user, step.now, at, id);
      }
    case UsePrekeys(ids) =>
    case RemoveKeys(user, device) =>
  }

  /** Step `i` claims for some user and hands out the prekey. */
  ghost predicate HandsOut(steps: seq<Step>, i: int, id: int) {
    && 0 <= i < |steps|
    && steps[i].action.ClaimFor?
    && Hands(After(steps[..i]), steps[i].action.user, steps[i].now, id)
  }

  /** When step `i` claimed the prekey it hands out. */
  ghost function ClaimedAt(steps: seq<Step>, i: int, id: int): int
    requires HandsOut(steps, i, id)
  {
    steps[i].action.at(After(steps[..i]).prekeys[id].device)
  }

  lemma {:induction false} HeldFromThenOn(steps: seq<Step>, i: nat, j: nat, id: int, clock: int)
    requires ClockForward(steps) && i < j <= |steps| && HandsOut(steps, i, id)
    requires steps[j - 1].now <= clock && ClaimedAt(steps, i, id) <= clock
    ensures HeldSince(After(steps[..j]), id, ClaimedAt(steps, i, id), clock)
  {
    hide After, Apply, Hands;
    var since := ClaimedAt(steps, i, id);
    AfterStep(steps, j - 1);
    RunIsSound(steps[..j - 1]);
    RunIsSound(steps[..j]);
    ClaimIsApplied(After(steps[..i]), steps[i], id);
    if i < j - 1 {
      assert steps[i].action.at(After(steps[..i]).prekeys[id].device) <= steps[j - 1].now;
      HeldFromThenOn(steps, i, j - 1, id, steps[j - 1].now);
      StepKeepsHeld(After(steps[..j - 1]), steps[j - 1], id, since, steps[j - 1].now);
    }
  }

  /** From one claim that hands out a prekey to the time-outs of the next that does it is at least 600 seconds. */
  lemma HandoutsAreFarApart(steps: seq<Step>, i: nat, j: nat, id: int)
    requires ClockForward(steps) && i < j && HandsOut(steps, i, id) && HandsOut(steps, j, id)
    ensures ClaimedAt(steps, j, id) >= steps[j].now >= ClaimedAt(steps, i, id) + CLAIM_TIMEOUT
  {
    HeldFromThenOn(steps, i, j, id, steps[j].now);
    ClaimEffect(After(steps[..j]), steps[j].action.user, steps[j].now, steps[j].action.at, id);
  }

  /** And once a prekey is used or deleted no claim hands it out again. */
  lemma SpentIsNeverHandedOut(steps: seq<Step>, i: nat, j: nat, id: int)
    requires i <= j && i <= |steps| && Spent(After(steps[..i]), id)
    ensures !HandsOut(steps, j, id)
  {
    if j < |steps| {
      SpentForGood(steps, i, j, id);
      if id in After(steps[..j]).prekeys && steps[j].action.ClaimFor? {
        ClaimEffect(After(steps[..j]), steps[j].action.user, steps[j].now, steps[j].action.at, id);
      }
    }
  }

  // ---------------------------------------------------------------- what a private send may use

  /**
   * Step `j` ends a claim on the prekey made at time `since`: a claim of anyone's that finds it
   * timed out, a use, another identity key for its device than the one on record, or the
   * removal of its device.
   */
  ghost predicate EndsClaim(steps: seq<Step>, j: int, since: int, id: int, p: Prekey)
    requires 0 <= j < |steps|
  {
    match steps[j].action
    case ClaimFor(_, _) => steps[j].now - since >= 600
    case UsePrekeys(ids) => id in ids
    case RegisterKeys(user, device, identity, _) =>
      && (user, device) == (p.user, p.device)
      && device != "" && identity.Decodes()
      && ChangesIdentity(After(steps[..j]), user, device, identity.text)
    case RemoveKeys(user, device) => (user, device) == (p.user, p.device)
  }

  /** Step `i` handed the prekey out, and nothing has ended that claim since. */
  ghost predicate HandedAndKept(steps: seq<Step>, i: int, id: int) {
    && HandsOut(steps, i, id)
    && var p := After(steps[..i]).prekeys[id];
       forall j | i < j < |steps| :: !EndsClaim(steps, j, ClaimedAt(steps, i, id), id, p)
  }

  /** A claimed prekey stays claimed as it was unless its claim is ended, and then only a new one counts. */
  lemma {:induction false} ClaimedStep(steps: seq<Step>, j: nat, id: int, p: Prekey, since: int)
    requires j < |steps| && Holds(After(steps[..j]), id, p.(status := Claimed(since)))
    ensures var t := After(steps[..j + 1]);
            if EndsClaim(steps, j, since, id, p)
            then id in t.prekeys && t.prekeys[id].status.Claimed? ==> HandsOut(steps, j, id)
            else Holds(t, id, p.(status := Claimed(since))) && !HandsOut(steps, j, id)
  {
    hide Apply, After;
    RunIsSound(steps[..j]);
    AfterStep(steps, j);
    StepEffect(After(steps[..j]), steps[j], id);
    if steps[j].action.ClaimFor? {
      var s := After(steps[..j]);
      ClaimEffect(s, steps[j].action.user, steps[j].now, steps[j].action.at, id);
    }
  }

  /** A step that leaves a prekey claimed either handed it out or found it claimed just so. */
  lemma ClaimedBecause(s: Store, step: Step, id: int)
    requires Sound(s) && id in Apply(s, step).prekeys && Apply(s, step).prekeys[id].status.Claimed?
    ensures if step.action.ClaimFor? && Hands(s, step.action.user, step.now, id)
            then id in s.prekeys && Apply(s, step).prekeys[id].status.at == step.action.at(s.prekeys[id].device)
            else id in s.prekeys && s.prekeys[id] == Apply(s, step).prekeys[id]
  {
    match step.action
    case ClaimFor(user, at) => ClaimEffect(s, user, step.now, at, id);
    case UsePrekeys(ids) =>
    case RegisterKeys(user, device, identity, prekeys) => RegisteredAreUnused(s, user, device, identity, prekeys, id);
    case RemoveKeys(user, device) =>
  }

  lemma RegisteredAreUnused(s: Store, user: int, device: string, identity: KeyText, prekeys: seq<KeyText>, id: int)
    requires Sound(s)
    ensures var t := Register(s, user, device, identity, prekeys).0;
            id in t.prekeys && t.prekeys[id].status.Claimed? ==> id in s.prekeys && s.prekeys[id] == t.prekeys[id]
  {
    var (registered, ok) := UpsertIdentity(s, user, device, identity.text);
    if identity.Decodes() && ok {
      UploadedAreUnused(registered, user, device, Texts(prekeys), id);
    }
  }

  lemma {:induction false} UploadedAreUnused(s: Store, user: int, device: string, pubs: seq<string>, id: int)
    ensures var t := Upload(s, user, device, pubs);
            id in t.prekeys && t.prekeys[id].status.Claimed? ==> id in s.prekeys && s.prekeys[id] == t.prekeys[id]
    decreases |pubs|
  {
    if pubs != [] {
      UploadedAreUnused(s, user, device, pubs[..|pubs| - 1], id);
    }
  }

  /** A prekey that was handed out and kept is claimed since then, by the row it was handed out from. */
  lemma {:induction false} KeptIsClaimed(steps: seq<Step>, i: nat, n: nat, id: int)
    requires HandedAndKept(steps, i, id) && i < n <= |steps|
    ensures id in After(steps[..i]).prekeys
    ensures Holds(After(steps[..n]), id, After(steps[..i]).prekeys[id].(status := Claimed(ClaimedAt(steps, i, id))))
  {
    hide Apply, After, Hands;
    ClaimIsApplied(After(steps[..i]), steps[i], id);
    if n == i + 1 {
      AfterStep(steps, i);
    } else {
      KeptIsClaimed(steps, i, n - 1, id);
      var p, since := After(steps[..i]).prekeys[id], ClaimedAt(steps, i, id);
      assert !EndsClaim(steps, n - 1, since, id, p);
      ClaimedStep(steps, n - 1, id, p, since);
    }
  }

  lemma ClaimIsApplied(s: Store, step: Step, id: int)
    requires step.action.ClaimFor? && Hands(s, step.action.user, step.now, id)
    ensures id in s.prekeys && s.prekeys[id].user == step.action.user
    ensures id in Apply(s, step).prekeys
    ensures Apply(s, step).prekeys[id] == s.prekeys[id].(status := Claimed(step.action.at(s.prekeys[id].device)))
  {
    ClaimEffect(s, step.action.user, step.now, step.action.at, id);
  }

  /** And conversely whatever is claimed was handed out and kept. */
  lemma {:induction false} ClaimedWasHanded(steps: seq<Step>, id: int) returns (i: nat)
    requires id in After(steps).prekeys && After(steps).prekeys[id].status.Claimed?
    ensures HandedAndKept(steps, i, id)
    decreases |steps|
  {
    hide Apply, After, Hands;
    assert steps != [] by { NothingAtFirst(); }
    var n := |steps| - 1;
    var init, s := steps[..n], After(steps[..n]);
    assert steps[..n + 1] == steps;
    AfterStep(steps, n);
    RunIsSound(init);
    ClaimedBecause(s, steps[n], id);
    if steps[n].action.ClaimFor? && Hands(s, steps[n].action.user, steps[n].now, id) {
      i := n;
    } else {
      i := ClaimedWasHanded(init, id);
      KeptIsClaimed(init, i, n, id);
      assert init[..i] == steps[..i] && init[..n] == init;
      var p, since := After(steps[..i]).prekeys[id], ClaimedAt(steps, i, id);
      ClaimedStep(steps, n, id, p, since);
      forall j | i < j < |steps|
        ensures !EndsClaim(steps, j, since, id, p)
      {
        if j < n {
          assert !EndsClaim(init, j, since, id, p);
          assert init[..j] == steps[..j];
        }
      }
    }
  }

  lemma NothingAtFirst()
    ensures After([]).prekeys == map[]
  {
  }

  /**
   * Over any run, an envelope entry passes the validation if and only if a claim handed that
   * prekey of that user and device out and since then it was not used, the device was neither
   * removed nor registered under another identity key, and no claim came 600 seconds later.
   */
  lemma ValidatesExactly(steps: seq<Step>, user: int, device: string, id: int)
    ensures ValidateClaimed(After(steps), user, device, id) <==>
            exists i :: HandedAndKept(steps, i, id) && BelongsTo(After(steps[..i]).prekeys[id], user, device)
  {
    hide Apply, After;
    assert steps[..|steps|] == steps;
    if ValidateClaimed(After(steps), user, device, id) {
      var i := ClaimedWasHanded(steps, id);
      KeptIsClaimed(steps, i, |steps|, id);
      assert HandedAndKept(steps, i, id) && BelongsTo(After(steps[..i]).prekeys[id], user, device);
    }
    forall i | HandedAndKept(steps, i, id) && BelongsTo(After(steps[..i]).prekeys[id], user, device)
      ensures ValidateClaimed(After(steps), user, device, id)
    {
      KeptIsClaimed(steps, i, |steps|, id);
    }
  }
}
