/**
 * The server's one-time prekeys: uploaded unused, claimed for a sender, given back when the
 * claim times out, used up when a message arrives, and thrown away when the device's
 * identity key changes.
 *
 * `PrekeyTable` changes its tables row by row; the functions on `Store` say what one call does.
 */
module PrekeyStore {
  import opened Collections

  const CLAIM_TIMEOUT := 600
  const MAX_PREKEYS_PER_BATCH := 100
  const MAX_PREKEYS_PER_DEVICE := 500

  datatype Status = Unused | Claimed(at: int) | Used

  datatype Prekey = Prekey(user: int, device: string, pub: string, status: Status)

  type Device = (int, string)

  /** The clock as it is read once for each device. */
  type Readings = string -> int

  /**
   * The tables.  `lastId` is the largest id ever handed out.  `uploadedUnder` is no table:
   * it records under which identity key of its device each prekey was uploaded.
   */
  datatype Store = Store(
    prekeys: map<int, Prekey>,
    lastId: nat,
    identities: map<Device, string>,
    uploadedUnder: map<int, string>)

  datatype ClaimedPrekey = ClaimedPrekey(device: string, id: int, pub: string)

  // ---------------------------------------------------------------- what each call does

  predicate BelongsTo(p: Prekey, user: int, device: string) {
    p.user == user && p.device == device
  }

  function Purge(prekeys: map<int, Prekey>, user: int, device: string): map<int, Prekey> {
    map id | id in prekeys && !(BelongsTo(prekeys[id], user, device) && !prekeys[id].status.Used?) :: prekeys[id]
  }

  function UpsertIdentity(s: Store, user: int, device: string, identity: string): (Store, bool) {
    if device == "" || identity == "" then (s, false)
    else
      var changed := (user, device) in s.identities && s.identities[(user, device)] != identity;
      (s.(prekeys := if changed then Purge(s.prekeys, user, device) else s.prekeys,
          identities := s.identities[(user, device) := identity]), true)
  }

  function Upload(s: Store, user: int, device: string, pubs: seq<string>): Store
    decreases |pubs|
  {
    if pubs == [] then s
    else
      var before := Upload(s, user, device, pubs[..|pubs| - 1]);
      var pub := pubs[|pubs| - 1];
      if pub == "" then before
      else
        var id := before.lastId + 1;
        before.(prekeys := before.prekeys[id := Prekey(user, device, pub, Unused)],
                lastId := id,
                uploadedUnder := before.uploadedUnder[id :=
                  if (user, device) in before.identities then before.identities[(user, device)] else ""])
  }

  function Reclaim(p: Prekey, now: int): Prekey {
    if p.status.Claimed? && p.status.at <= now - CLAIM_TIMEOUT then p.(status := Unused) else p
  }

  /** The rows once every claim that timed out has been given back. */
  function Reclaimed(prekeys: map<int, Prekey>, now: int): map<int, Prekey> {
    map id | id in prekeys :: Reclaim(prekeys[id], now)
  }

  /** The unused prekeys of a device. */
  function Stock(prekeys: map<int, Prekey>, user: int, device: string): set<int> {
    set id | id in prekeys && BelongsTo(prekeys[id], user, device) && prekeys[id].status.Unused?
  }

  /** The prekey a claim for `user` hands out for its device: the one uploaded first. */
  ghost predicate IsChosen(prekeys: map<int, Prekey>, user: int, id: int) {
    id in prekeys && prekeys[id].user == user && IsLeast(id, Stock(prekeys, user, prekeys[id].device))
  }

  /** The rows once the claim has marked the chosen prekeys of the devices in `devices`. */
  ghost function MarkChosen(prekeys: map<int, Prekey>, user: int, devices: set<string>, at: Readings)
    : map<int, Prekey>
  {
    map id | id in prekeys ::
      if IsChosen(prekeys, user, id) && prekeys[id].device in devices
      then prekeys[id].(status := Claimed(at(prekeys[id].device)))
      else prekeys[id]
  }

  function StockedDevices(prekeys: map<int, Prekey>, user: int): set<string> {
    set id | id in prekeys && prekeys[id].user == user && prekeys[id].status.Unused? :: prekeys[id].device
  }

  /** The clock is read at `now` for the time-outs, and again for each device it claims from. */
  ghost function Claim(s: Store, user: int, now: int, at: Readings): Store {
    var rows := Reclaimed(s.prekeys, now);
    s.(prekeys := MarkChosen(rows, user, StockedDevices(rows, user), at))
  }

  /** `result` lists the chosen prekeys of the devices in `devices`, one for each. */
  ghost predicate Lists(result: seq<ClaimedPrekey>, prekeys: map<int, Prekey>, user: int, devices: set<string>) {
    && (forall i | 0 <= i < |result| ::
          && IsChosen(prekeys, user, result[i].id)
          && result[i].device == prekeys[result[i].id].device
          && result[i].device in devices
          && result[i].pub == prekeys[result[i].id].pub)
    && (forall i, j | 0 <= i < j < |result| :: result[i].device != result[j].device)
    && (forall d | d in devices :: exists i :: 0 <= i < |result| && result[i].device == d)
  }

  predicate ValidateClaimed(s: Store, user: int, device: string, id: int) {
    id in s.prekeys && BelongsTo(s.prekeys[id], user, device) && s.prekeys[id].status.Claimed?
  }

  function ClaimedAmong(prekeys: map<int, Prekey>, ids: seq<int>): set<int> {
    set id | id in ids && id in prekeys && prekeys[id].status.Claimed?
  }

  function UseUp(prekeys: map<int, Prekey>, ids: seq<int>): map<int, Prekey> {
    map id | id in prekeys ::
      if id in ids && prekeys[id].status.Claimed? then prekeys[id].(status := Used) else prekeys[id]
  }

  function Consume(s: Store, ids: seq<int>): Store {
    s.(prekeys := UseUp(s.prekeys, ids))
  }

  function RemoveDevice(s: Store, user: int, device: string): Store {
    s.(prekeys := map id | id in s.prekeys && !BelongsTo(s.prekeys[id], user, device) :: s.prekeys[id],
       identities := s.identities - {(user, device)})
  }

  class PrekeyTable {
    var prekeys: map<int, Prekey>
    var lastId: nat
    var identities: map<Device, string>
    ghost var uploadedUnder: map<int, string>

    ghost function Tables(): Store
      reads this
    {
      Store(prekeys, lastId, identities, uploadedUnder)
    }

    constructor ()
      ensures Tables() == Store(map[], 0, map[], map[])
    {
      prekeys, lastId, identities, uploadedUnder := map[], 0, map[], map[];
    }

    method UpsertIdentityKey(user: int, device: string, identity: string) returns (ok: bool)
      modifies this
      ensures (Tables(), ok) == UpsertIdentity(old(Tables()), user, device, identity)
    {
      if device == "" || identity == "" {
        return false;
      }
      if (user, device) in identities && identities[(user, device)] != identity {
        prekeys := map id | id in prekeys
                          && !(BelongsTo(prekeys[id], user, device) && !prekeys[id].status.Used?) :: prekeys[id];
      }
      identities := identities[(user, device) := identity];
      return true;
    }

    method UploadPrekeys(user: int, device: string, pubs: seq<string>) returns (inserted: int)
      modifies this
      ensures device == "" || pubs == [] ==> inserted == -1 && Tables() == old(Tables())
      ensures device != "" && pubs != [] ==> Tables() == Upload(old(Tables()), user, device, pubs)
      ensures device != "" && pubs != [] ==> inserted == lastId - old(lastId)
    {
      if device == "" || pubs == [] {
        return -1;
      }
      inserted := 0;
      for i := 0 to |pubs|
        invariant Tables() == Upload(old(Tables()), user, device, pubs[..i])
        invariant inserted == lastId - old(lastId)
      {
        assert pubs[..i + 1][..i] == pubs[..i];
        if pubs[i] != "" {
          lastId := lastId + 1;
          prekeys := prekeys[lastId := Prekey(user, device, pubs[i], Unused)];
          uploadedUnder := uploadedUnder[lastId :=
            if (user, device) in identities then identities[(user, device)] else ""];
          inserted := inserted + 1;
        }
      }
      assert pubs[..|pubs|] == pubs;
    }

    method PrekeyCount(user: int, device: string) returns (count: nat)
      ensures count == |Stock(prekeys, user, device)|
    {
      count := |Stock(prekeys, user, device)|;
    }

    method ReclaimExpired(now: int)
      modifies this`prekeys
      ensures prekeys == Reclaimed(old(prekeys), now)
    {
      prekeys := map id | id in prekeys :: Reclaim(prekeys[id], now);
    }

    /** Gives back timed-out claims, then claims one prekey of every device of the user that has one. */
    method ClaimPrekeys(user: int, now: int, at: Readings) returns (result: seq<ClaimedPrekey>)
      modifies this`prekeys
      ensures Tables() == Claim(old(Tables()), user, now, at)
      ensures var rows := Reclaimed(old(prekeys), now);
              Lists(result, rows, user, StockedDevices(rows, user))
    {
      ReclaimExpired(now);
      ghost var rows := prekeys;
      var devices := StockedDevices(prekeys, user);
      ghost var done: set<string> := {};
      result := [];
      assert prekeys == MarkChosen(rows, user, done, at);
      while devices != {}
        invariant devices + done == StockedDevices(rows, user) && devices !! done
        invariant prekeys == MarkChosen(rows, user, done, at)
        invariant Lists(result, rows, user, done)
        decreases devices
      {
        hide Lists, MarkChosen, StockedDevices;
        var device :| device in devices;
        assert device in StockedDevices(rows, user);
        var claimed := ClaimOne(user, device, at, rows, done);
        ListsOneMore(result, rows, user, done, claimed);
        result := result + [claimed];
        devices := devices - {device};
        done := done + {device};
      }
      assert done == StockedDevices(rows, user);
    }

    /** Claims the first prekey in stock of one more device. */
    method ClaimOne(user: int, device: string, at: Readings, ghost rows: map<int, Prekey>, ghost done: set<string>)
      returns (claimed: ClaimedPrekey)
      requires prekeys == MarkChosen(rows, user, done, at)
      requires device in StockedDevices(rows, user) && device !in done
      modifies this`prekeys
      ensures prekeys == MarkChosen(rows, user, done + {device}, at)
      ensures IsChosen(rows, user, claimed.id) && rows[claimed.id].device == device
      ensures claimed == ClaimedPrekey(device, claimed.id, rows[claimed.id].pub)
    {
      StockUnmarked(rows, user, done, at, device);
      StockedHasStock(rows, user, device);
      var stock := Stock(prekeys, user, device);
      LeastExists(stock);
      var id :| id in stock && forall other | other in stock :: id <= other;
      assert IsChosen(rows, user, id);
      MarkOneMore(rows, user, done, at, device, id);
      claimed := ClaimedPrekey(device, id, prekeys[id].pub);
      prekeys := prekeys[id := prekeys[id].(status := Claimed(at(device)))];
    }

    method ValidateClaimedPrekey(user: int, device: string, id: int) returns (valid: bool)
      ensures valid == ValidateClaimed(Tables(), user, device, id)
    {
      valid := id in prekeys && BelongsTo(prekeys[id], user, device) && prekeys[id].status.Claimed?;
    }

    method ConsumePrekeys(ids: seq<int>) returns (consumed: nat)
      modifies this`prekeys
      ensures Tables() == Consume(old(Tables()), ids)
      ensures consumed == |ClaimedAmong(old(prekeys), ids)|
    {
      consumed := 0;
      for i := 0 to |ids|
        invariant prekeys == UseUp(old(prekeys), ids[..i])
        invariant consumed == |ClaimedAmong(old(prekeys), ids[..i])|
      {
        hide UseUp, ClaimedAmong;
        UseUpOneMore(old(prekeys), ids, i);
        if ids[i] in prekeys && prekeys[ids[i]].status.Claimed? {
          prekeys := prekeys[ids[i] := prekeys[ids[i]].(status := Used)];
          consumed := consumed + 1;
        }
      }
      assert ids[..|ids|] == ids;
    }

    method RemoveDeviceKeys(user: int, device: string)
      modifies this
      ensures Tables() == RemoveDevice(old(Tables()), user, device)
    {
      identities := identities - {(user, device)};
      prekeys := map id | id in prekeys && !BelongsTo(prekeys[id], user, device) :: prekeys[id];
    }
  }

  lemma UseUpOneMore(prekeys: map<int, Prekey>, ids: seq<int>, i: nat)
    requires i < |ids|
    ensures var before := UseUp(prekeys, ids[..i]);
            var moves := ids[i] in before && before[ids[i]].status.Claimed?;
            && UseUp(prekeys, ids[..i + 1]) ==
               (if moves then before[ids[i] := before[ids[i]].(status := Used)] else before)
            && |ClaimedAmong(prekeys, ids[..i + 1])| == |ClaimedAmong(prekeys, ids[..i])| + if moves then 1 else 0
  {
    assert ids[..i + 1] == ids[..i] + [ids[i]];
    var was, now := ClaimedAmong(prekeys, ids[..i]), ClaimedAmong(prekeys, ids[..i + 1]);
    if ids[i] in prekeys && prekeys[ids[i]].status.Claimed? {
      assert now == was + {ids[i]};
    } else {
      assert now == was;
    }
  }

  // ---------------------------------------------------------------- one claim, device by device

  lemma StockUnmarked(rows: map<int, Prekey>, user: int, done: set<string>, at: Readings, device: string)
    requires device !in done
    ensures Stock(MarkChosen(rows, user, done, at), user, device) == Stock(rows, user, device)
  {
  }

  lemma StockedHasStock(rows: map<int, Prekey>, user: int, device: string)
    requires device in StockedDevices(rows, user)
    ensures Stock(rows, user, device) != {}
  {
    var id :| id in rows && rows[id].user == user && rows[id].status.Unused? && rows[id].device == device;
    assert id in Stock(rows, user, device);
  }

  lemma ListsOneMore(result: seq<ClaimedPrekey>, rows: map<int, Prekey>, user: int, done: set<string>,
                     claimed: ClaimedPrekey)
    requires Lists(result, rows, user, done) && claimed.device !in done
    requires IsChosen(rows, user, claimed.id)
    requires claimed == ClaimedPrekey(rows[claimed.id].device, claimed.id, rows[claimed.id].pub)
    ensures Lists(result + [claimed], rows, user, done + {claimed.device})
  {
    hide IsChosen;
    var more := result + [claimed];
    assert more[|result|] == claimed;
    forall d | d in done
      ensures exists i :: 0 <= i < |more| && more[i].device == d
    {
      var i :| 0 <= i < |result| && result[i].device == d;
      assert more[i].device == d;
    }
  }

  lemma MarkOneMore(rows: map<int, Prekey>, user: int, done: set<string>, at: Readings, device: string, id: int)
    requires device !in done && IsChosen(rows, user, id) && rows[id].device == device
    ensures var marked := MarkChosen(rows, user, done, at);
            && marked[id] == rows[id]
            && MarkChosen(rows, user, done + {device}, at) == marked[id := rows[id].(status := Claimed(at(device)))]
  {
  }

  // ---------------------------------------------------------------- requests

  /** A public key as a request carries it: its text, and whether that is Base64 of 32 bytes. */
  datatype KeyText = KeyText(text: string, is32Bytes: bool)
  {
    predicate Decodes() {
      text != "" && is32Bytes
    }
  }

  datatype RegisterOutcome = InvalidRequest | InternalError | Registered(uploaded: int, remaining: nat)

  function Texts(keys: seq<KeyText>): (texts: seq<string>)
    ensures |texts| == |keys|
    ensures forall i | 0 <= i < |keys| :: texts[i] == keys[i].text
  {
    seq(|keys|, i requires 0 <= i < |keys| => keys[i].text)
  }

  /** The identity is stored first, and stays stored when the prekeys are then turned down. */
  function Register(s: Store, user: int, device: string, identity: KeyText, prekeys: seq<KeyText>)
    : (Store, RegisterOutcome)
  {
    if !identity.Decodes() then (s, InvalidRequest)
    else
      var (registered, ok) := UpsertIdentity(s, user, device, identity.text);
      if !ok then (registered, InternalError)
      else if |prekeys| > MAX_PREKEYS_PER_BATCH
              || (prekeys != [] && |Stock(registered.prekeys, user, device)| + |prekeys| > MAX_PREKEYS_PER_DEVICE)
              || exists i :: 0 <= i < |prekeys| && !prekeys[i].Decodes()
      then (registered, InvalidRequest)
      else
        var uploaded := Upload(registered, user, device, Texts(prekeys));
        (uploaded, Registered(uploaded.lastId - s.lastId, |Stock(uploaded.prekeys, user, device)|))
  }

  method ProcessRegisterKeys(db: PrekeyTable, user: int, device: string, identity: KeyText, prekeys: seq<KeyText>)
    returns (outcome: RegisterOutcome)
    modifies db
    ensures (db.Tables(), outcome) == Register(old(db.Tables()), user, device, identity, prekeys)
  {
    if !identity.Decodes() {
      return InvalidRequest;
    }
    var stored := db.UpsertIdentityKey(user, device, identity.text);
    if !stored {
      return InternalError;
    }
    var uploaded := 0;
    if prekeys != [] {
      if |prekeys| > MAX_PREKEYS_PER_BATCH {
        return InvalidRequest;
      }
      var remaining := db.PrekeyCount(user, device);
      if remaining + |prekeys| > MAX_PREKEYS_PER_DEVICE {
        return InvalidRequest;
      }
      var pubs: seq<string> := [];
      for i := 0 to |prekeys|
        invariant pubs == Texts(prekeys)[..i]
        invariant forall j | 0 <= j < i :: prekeys[j].Decodes()
      {
        if !prekeys[i].Decodes() {
          return InvalidRequest;
        }
        pubs := pubs + [prekeys[i].text];
      }
      assert pubs == Texts(prekeys);
      uploaded := db.UploadPrekeys(user, device, pubs);
    }
    var count := db.PrekeyCount(user, device);
    return Registered(uploaded, count);
  }

  /** Another identity key is on record for the device than the one it registers now. */
  predicate ChangesIdentity(s: Store, user: int, device: string, identity: string) {
    (user, device) in s.identities && s.identities[(user, device)] != identity
  }

  /**
   * Registering an identity key deletes a prekey if and only if it is this device's, has not
   * been used, and another identity key was on record; it touches no other row and no other
   * device's identity.
   */
  lemma UpsertIdentityExactly(s: Store, user: int, device: string, identity: string)
    ensures var (t, ok) := UpsertIdentity(s, user, device, identity);
            && (ok <==> device != "" && identity != "")
            && (!ok ==> t == s)
            && (forall id :: id in t.prekeys <==>
                  id in s.prekeys
                  && !(ok && ChangesIdentity(s, user, device, identity)
                       && BelongsTo(s.prekeys[id], user, device) && !s.prekeys[id].status.Used?))
            && (forall id | id in t.prekeys :: t.prekeys[id] == s.prekeys[id])
            && (ok ==> IdentityOf(t, user, device) == identity)
            && (forall u, d | (u, d) != (user, device) :: IdentityOf(t, u, d) == IdentityOf(s, u, d))
            && t.lastId == s.lastId && t.uploadedUnder == s.uploadedUnder
  {
  }

  function NonEmpty(pubs: seq<string>): seq<string> {
    if pubs == [] then []
    else
      var before, last := NonEmpty(pubs[..|pubs| - 1]), pubs[|pubs| - 1];
      if last == "" then before else before + [last]
  }

  lemma {:induction false} NonEmptyKeeps(pubs: seq<string>)
    ensures forall pub :: pub in NonEmpty(pubs) <==> pub in pubs && pub != ""
    decreases |pubs|
  {
    if pubs != [] {
      NonEmptyKeeps(pubs[..|pubs| - 1]);
      assert pubs == pubs[..|pubs| - 1] + [pubs[|pubs| - 1]];
    }
  }

  /** Empty keys are passed over and the others stored as if they had come alone. */
  lemma {:induction false} EmptyKeysAreSkipped(s: Store, user: int, device: string, pubs: seq<string>)
    ensures Upload(s, user, device, pubs) == Upload(s, user, device, NonEmpty(pubs))
    ensures forall pub :: pub in NonEmpty(pubs) <==> pub in pubs && pub != ""
    decreases |pubs|
  {
    hide Upload;
    NonEmptyKeeps(pubs);
    if pubs != [] {
      var init, last := pubs[..|pubs| - 1], pubs[|pubs| - 1];
      EmptyKeysAreSkipped(s, user, device, init);
      SameLastUploaded(s, user, device, init, NonEmpty(init), last);
      assert pubs == init + [last];
    }
  }

  lemma SameLastUploaded(s: Store, user: int, device: string, a: seq<string>, b: seq<string>, last: string)
    requires Upload(s, user, device, a) == Upload(s, user, device, b)
    ensures Upload(s, user, device, a + [last]) == Upload(s, user, device, b + [last])
    ensures last == "" ==> Upload(s, user, device, a + [last]) == Upload(s, user, device, a)
  {
    assert (a + [last])[..|a|] == a && (b + [last])[..|b|] == b;
  }

  /** The stock of a device once it has registered the identity key. */
  function StockThen(s: Store, user: int, device: string, identity: string): nat {
    if ChangesIdentity(s, user, device, identity) then 0 else |Stock(s.prekeys, user, device)|
  }

  lemma StockAfterUpsert(s: Store, user: int, device: string, identity: string)
    requires device != "" && identity != ""
    ensures |Stock(UpsertIdentity(s, user, device, identity).0.prekeys, user, device)|
         == StockThen(s, user, device, identity)
  {
    var t := UpsertIdentity(s, user, device, identity).0;
    assert Stock(t.prekeys, user, device) ==
      if ChangesIdentity(s, user, device, identity) then {} else Stock(s.prekeys, user, device);
  }

  /**
   * Which answer a registration gets, for every one of them.  At most 100 prekeys, and no more
   * than 500 in stock, are accepted, and only if all of them decode; but the identity key is
   * stored, and the old prekeys are gone, even if the new ones are then turned down.
   */
  lemma RegisteredExactly(s: Store, user: int, device: string, identity: KeyText, prekeys: seq<KeyText>)
    ensures var (t, outcome) := Register(s, user, device, identity, prekeys);
            var decodes := identity.text != "" && identity.is32Bytes;
            var acceptable := && |prekeys| <= 100
                              && (prekeys != [] ==> StockThen(s, user, device, identity.text) + |prekeys| <= 500)
                              && forall k | k in prekeys :: k.text != "" && k.is32Bytes;
            && (outcome.Registered? <==> decodes && device != "" && acceptable)
            && (outcome.InternalError? <==> decodes && device == "")
            && (outcome.InvalidRequest? <==> !decodes || (device != "" && !acceptable))
            && (!outcome.Registered? ==>
                  t == if decodes then UpsertIdentity(s, user, device, identity.text).0 else s)
  {
    hide Stock, Upload, Purge;
    if identity.text != "" && device != "" {
      StockAfterUpsert(s, user, device, identity.text);
    }
  }

  predicate Holds(s: Store, id: int, p: Prekey) {
    id in s.prekeys && s.prekeys[id] == p
  }

  predicate Numbered(s: Store) {
    forall id | id in s.prekeys :: id <= s.lastId
  }

  lemma UploadOne(s: Store, user: int, device: string, pubs: seq<string>)
    requires pubs != [] && pubs[|pubs| - 1] != ""
    requires Numbered(Upload(s, user, device, pubs[..|pubs| - 1]))
    ensures var before, after := Upload(s, user, device, pubs[..|pubs| - 1]), Upload(s, user, device, pubs);
            && after.lastId == before.lastId + 1
            && Numbered(after)
            && after.prekeys == before.prekeys[after.lastId := Prekey(user, device, pubs[|pubs| - 1], Unused)]
            && Stock(after.prekeys, user, device) == Stock(before.prekeys, user, device) + {after.lastId}
            && after.lastId !in Stock(before.prekeys, user, device)
  {
  }

  /** The new prekeys of an upload take the next ids in order, and all of them are in stock. */
  lemma {:induction false} UploadStock(s: Store, user: int, device: string, pubs: seq<string>)
    requires Numbered(s) && forall i | 0 <= i < |pubs| :: pubs[i] != ""
    ensures var t := Upload(s, user, device, pubs);
            && t.lastId == s.lastId + |pubs|
            && Numbered(t)
            && (forall i | 0 <= i < |pubs| :: Holds(t, s.lastId + 1 + i, Prekey(user, device, pubs[i], Unused)))
            && |Stock(t.prekeys, user, device)| == |Stock(s.prekeys, user, device)| + |pubs|
    decreases |pubs|
  {
    if pubs != [] {
      hide Stock;
      var init := pubs[..|pubs| - 1];
      var before, after := Upload(s, user, device, init), Upload(s, user, device, pubs);
      UploadStock(s, user, device, init);
      UploadOne(s, user, device, pubs);
      hide Upload, Numbered;
      forall i | 0 <= i < |pubs|
        ensures Holds(after, s.lastId + 1 + i, Prekey(user, device, pubs[i], Unused))
      {
        if i < |init| {
          assert Holds(before, s.lastId + 1 + i, Prekey(user, device, init[i], Unused));
        }
      }
    }
  }

  /**
   * A registration answered Ok stored every prekey it carried, under consecutive new ids, and
   * an upload never takes a device's stock past the quota.
   */
  lemma {:induction false} RegistrationKeepsQuota(s: Store, user: int, device: string, identity: KeyText,
                                                  prekeys: seq<KeyText>)
    requires Numbered(s) && Register(s, user, device, identity, prekeys).1.Registered?
    ensures var (t, outcome) := Register(s, user, device, identity, prekeys);
            && outcome.uploaded == |prekeys|
            && outcome.remaining == |Stock(t.prekeys, user, device)|
            && outcome.remaining == StockThen(s, user, device, identity.text) + |prekeys|
            && (prekeys != [] ==> outcome.remaining <= 500)
            && IdentityOf(t, user, device) == identity.text
            && forall i | 0 <= i < |prekeys| ::
                 Holds(t, s.lastId + 1 + i, Prekey(user, device, prekeys[i].text, Unused))
  {
    var registered := UpsertIdentity(s, user, device, identity.text).0;
    StockAfterUpsert(s, user, device, identity.text);
    UploadStock(registered, user, device, Texts(prekeys));
    UploadKeepsIdentities(registered, user, device, Texts(prekeys));
  }

  lemma {:induction false} UploadKeepsIdentities(s: Store, user: int, device: string, pubs: seq<string>)
    ensures Upload(s, user, device, pubs).identities == s.identities
    decreases |pubs|
  {
    if pubs != [] {
      UploadKeepsIdentities(s, user, device, pubs[..|pubs| - 1]);
    }
  }

  datatype Bundle = Bundle(device: string, identity: string, prekeyId: int, prekeyPub: string)

  /** The identity key on record for a device, "" if there is none. */
  function IdentityOf(s: Store, user: int, device: string): string {
    if (user, device) in s.identities then s.identities[(user, device)] else ""
  }

  /** The prekeys one claim hands out. */
  ghost predicate Hands(s: Store, user: int, now: int, id: int) {
    IsChosen(Reclaimed(s.prekeys, now), user, id)
  }

  ghost predicate Handed(s: Store, user: int, now: int, b: Bundle) {
    && Hands(s, user, now, b.prekeyId)
    && b.prekeyId in s.prekeys
    && b.device == s.prekeys[b.prekeyId].device
    && b.prekeyPub == s.prekeys[b.prekeyId].pub
    && b.identity == IdentityOf(s, user, b.device) != ""
  }

  /** The bundles made of the claimed prekeys whose device has an identity key. */
  function Pair(s: Store, user: int, claimed: seq<ClaimedPrekey>): seq<Bundle> {
    if claimed == [] then []
    else
      var before := Pair(s, user, claimed[..|claimed| - 1]);
      var c := claimed[|claimed| - 1];
      var identity := IdentityOf(s, user, c.device);
      if identity == "" then before else before + [Bundle(c.device, identity, c.id, c.pub)]
  }

  lemma {:induction false} PairFacts(s: Store, user: int, claimed: seq<ClaimedPrekey>)
    ensures forall b | b in Pair(s, user, claimed) ::
              exists c :: c in claimed && b.identity != ""
                && b == Bundle(c.device, IdentityOf(s, user, c.device), c.id, c.pub)
    ensures forall c | c in claimed && IdentityOf(s, user, c.device) != "" ::
              Bundle(c.device, IdentityOf(s, user, c.device), c.id, c.pub) in Pair(s, user, claimed)
  {
    hide IdentityOf;
    if claimed != [] {
      var init := claimed[..|claimed| - 1];
      var last := claimed[|claimed| - 1];
      PairFacts(s, user, init);
      assert claimed == init + [last];
    }
  }

  datatype FetchOutcome =
    | InvalidTarget
    | RateLimited
    | AccountNotFound
    | KeyBundleUnavailable
    | Fetched(bundles: seq<Bundle>)

  /** A prekey is handed out by this claim whose device has an identity key. */
  ghost predicate SomethingToBundle(s: Store, user: int, now: int) {
    exists id :: Hands(s, user, now, id) && IdentityOf(s, user, s.prekeys[id].device) != ""
  }

  /**
   * The handler: claims for the user and pairs each claimed prekey with its device's identity
   * key, if it has one.  A claim that yields no bundle keeps what it claimed.
   */
  method ProcessFetchKeys(db: PrekeyTable, me: int, user: int, withinRate: bool, hasDevices: bool,
                           now: int, at: Readings)
    returns (outcome: FetchOutcome)
    modifies db
    ensures var refused := user <= 0 || user == me || !withinRate || !hasDevices;
            db.Tables() == if refused then old(db.Tables()) else Claim(old(db.Tables()), user, now, at)
    ensures outcome.InvalidTarget? <==> user <= 0 || user == me
    ensures outcome.RateLimited? <==> user > 0 && user != me && !withinRate
    ensures outcome.AccountNotFound? <==> user > 0 && user != me && withinRate && !hasDevices
    ensures outcome.Fetched? <==>
              user > 0 && user != me && withinRate && hasDevices && SomethingToBundle(old(db.Tables()), user, now)
    ensures outcome.Fetched? ==>
              && (forall b | b in outcome.bundles :: Handed(old(db.Tables()), user, now, b))
              && (forall id | Hands(old(db.Tables()), user, now, id)
                              && IdentityOf(old(db.Tables()), user, old(db.prekeys)[id].device) != "" ::
                    exists b :: b in outcome.bundles && b.prekeyId == id)
  {
    if user <= 0 || user == me {
      return InvalidTarget;
    }
    if !withinRate {
      return RateLimited;
    }
    if !hasDevices {
      return AccountNotFound;
    }
    var bundles := FetchKeys(db, user, now, at);
    if bundles == [] {
      return KeyBundleUnavailable;
    }
    assert bundles[0] in bundles;
    return Fetched(bundles);
  }

  method FetchKeys(db: PrekeyTable, user: int, now: int, at: Readings) returns (bundles: seq<Bundle>)
    modifies db
    ensures db.Tables() == Claim(old(db.Tables()), user, now, at)
    ensures forall b | b in bundles :: Handed(old(db.Tables()), user, now, b)
    ensures forall id | Hands(old(db.Tables()), user, now, id)
                        && IdentityOf(old(db.Tables()), user, old(db.prekeys)[id].device) != "" ::
              exists b :: b in bundles && b.prekeyId == id
  {
    ghost var before := db.Tables();
    var claimed := db.ClaimPrekeys(user, now, at);
    bundles := [];
    for i := 0 to |claimed|
      invariant bundles == Pair(before, user, claimed[..i])
    {
      assert claimed[..i + 1][..i] == claimed[..i];
      var device := claimed[i].device;
      var identity := if (user, device) in db.identities then db.identities[(user, device)] else "";
      if identity != "" {
        bundles := bundles + [Bundle(device, identity, claimed[i].id, claimed[i].pub)];
      }
    }
    assert claimed[..|claimed|] == claimed;
    BundlesAreHanded(before, user, now, claimed);
  }

  lemma {:induction false} BundlesAreHanded(s: Store, user: int, now: int, claimed: seq<ClaimedPrekey>)
    requires var rows := Reclaimed(s.prekeys, now); Lists(claimed, rows, user, StockedDevices(rows, user))
    ensures forall b | b in Pair(s, user, claimed) :: Handed(s, user, now, b)
    ensures forall id | Hands(s, user, now, id) && IdentityOf(s, user, s.prekeys[id].device) != "" ::
              exists b :: b in Pair(s, user, claimed) && b.prekeyId == id
  {
    hide Pair, Stock;
    var rows := Reclaimed(s.prekeys, now);
    PairFacts(s, user, claimed);
    forall id | Hands(s, user, now, id) && IdentityOf(s, user, s.prekeys[id].device) != ""
      ensures exists b :: b in Pair(s, user, claimed) && b.prekeyId == id
    {
      OneChoicePerDevice(rows, user, id);
      var i :| 0 <= i < |claimed| && claimed[i].device == rows[id].device;
      SameChoice(rows, user, id, claimed[i].id);
      var c := claimed[i];
      assert c in claimed && c.id == id;
      assert Bundle(c.device, IdentityOf(s, user, c.device), c.id, c.pub) in Pair(s, user, claimed);
    }
  }

  lemma OneChoicePerDevice(rows: map<int, Prekey>, user: int, id: int)
    requires IsChosen(rows, user, id)
    ensures rows[id].device in StockedDevices(rows, user)
  {
  }

  lemma SameChoice(rows: map<int, Prekey>, user: int, a: int, b: int)
    requires IsChosen(rows, user, a) && IsChosen(rows, user, b) && rows[a].device == rows[b].device
    ensures a == b
  {
  }
}
