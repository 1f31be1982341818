/**
 * Storing a private message: the envelope's entries are checked against the claimed prekeys
 * of the recipient, the message is stored, and the prekeys it references are used up.
 * Each request is one atomic step.
 */
module PrivateSend {
  import opened Wrappers
  import opened MessageTable
  import opened PrekeyStore
  import opened PrekeyRuns

  const SELF_COPY_PREKEY_ID := 0
  const MAX_CLIENT_MESSAGE_ID := 128

  /** The parts of an envelope entry the server looks at. */
  datatype Entry = Entry(device: string, prekeyId: int)

  type Envelope = seq<Entry>

  /** `content` is `None` when it is empty, and its envelope is `None` when it does not decode. */
  datatype Request = Request(
    sender: int,
    device: string,
    clientMessageId: string,
    toUser: int,
    content: Option<Option<Envelope>>)

  datatype Outcome = BadRequest | CannotSendToSelf | InvalidEnvelope | Sent(id: int) | Reused(id: int)

  datatype Server = Server(keys: Store, messages: Table<Envelope>)

  /** What decoding guarantees of an envelope. */
  predicate Decoded(entries: Envelope) {
    entries != [] && forall e | e in entries :: e.device != "" && e.prekeyId >= 0
  }

  predicate IsSelfCopy(e: Entry, device: string) {
    e.device == device && e.prekeyId == SELF_COPY_PREKEY_ID
  }

  /** How far the check of the entries got: turned down, or these prekeys and devices so far. */
  datatype Scan = TurnedDown | Passed(prekeyIds: seq<int>, peers: set<string>, selfCopy: bool)

  /** The check of one more entry, against the prekeys as they are then. */
  function ScanOne(s: Store, toUser: int, device: string, scan: Scan, e: Entry): Scan {
    match scan
    case TurnedDown => TurnedDown
    case Passed(prekeyIds, peers, selfCopy) =>
      if IsSelfCopy(e, device) then
        if selfCopy then TurnedDown else Passed(prekeyIds, peers, true)
      else if e.device in peers || !ValidateClaimed(s, toUser, e.device, e.prekeyId) then TurnedDown
      else Passed(prekeyIds + [e.prekeyId], peers + {e.device}, selfCopy)
  }

  function Check(s: Store, toUser: int, device: string, entries: Envelope): Scan {
    if entries == [] then Passed([], {}, false)
    else ScanOne(s, toUser, device, Check(s, toUser, device, entries[..|entries| - 1]), entries[|entries| - 1])
  }

  function KeyOf(r: Request): Key {
    Key(r.sender, r.device, r.clientMessageId)
  }

  function Send(s: Server, r: Request): (Server, Outcome) {
    if r.clientMessageId == "" || |r.clientMessageId| > MAX_CLIENT_MESSAGE_ID then (s, BadRequest)
    else if r.toUser <= 0 || r.toUser == r.sender then (s, CannotSendToSelf)
    else if r.content.None? then (s, BadRequest)
    else
      var existing := Lookup(s.messages.rows, KeyOf(r));
      if existing.Some? then (s, Reused(existing.value.id))
      else if r.content.value.None? || !Decoded(r.content.value.value) then (s, InvalidEnvelope)
      else
        var envelope := r.content.value.value;
        match Check(s.keys, r.toUser, r.device, envelope)
        case TurnedDown => (s, InvalidEnvelope)
        case Passed(prekeyIds, _, _) =>
          if prekeyIds == [] then (s, InvalidEnvelope)
          else
            var (messages, id) := MessageTable.Store(s.messages, KeyOf(r), envelope);
            (Server(Consume(s.keys, prekeyIds), messages), Sent(id))
  }

  /** The handler; `consumed` is how many prekeys the consume step moved on. */
  method ProcessSendMessage(db: PrekeyTable, messages: Messages<Envelope>, r: Request)
    returns (outcome: Outcome, consumed: nat)
    modifies db, messages
    ensures (Server(db.Tables(), messages.Contents()), outcome)
         == Send(old(Server(db.Tables(), messages.Contents())), r)
    ensures outcome.Sent? && Sound(old(db.Tables())) ==> consumed == |RecipientIds(r.content.value.value)| > 0
  {
    consumed := 0;
    if r.clientMessageId == "" || |r.clientMessageId| > MAX_CLIENT_MESSAGE_ID {
      return BadRequest, 0;
    }
    if r.toUser <= 0 || r.toUser == r.sender {
      return CannotSendToSelf, 0;
    }
    if r.content.None? {
      return BadRequest, 0;
    }
    var existing := messages.GetMessageByClientKey(KeyOf(r));
    if existing.Some? {
      return Reused(existing.value.id), 0;
    }
    if r.content.value.None? || !Decoded(r.content.value.value) {
      return InvalidEnvelope, 0;
    }
    var entries := r.content.value.value;
    var scan := CheckEntries(db, r.toUser, r.device, entries);
    if scan.TurnedDown? || scan.prekeyIds == [] {
      return InvalidEnvelope, 0;
    }
    if Sound(db.Tables()) {
      PassedIds(db.Tables(), r.toUser, r.device, entries);
      AllClaimed(db.prekeys, scan.prekeyIds);
    }
    var id := messages.SendMessage(KeyOf(r), entries);
    consumed := db.ConsumePrekeys(scan.prekeyIds);
    return Sent(id), consumed;
  }

  method CheckEntries(db: PrekeyTable, toUser: int, device: string, entries: Envelope) returns (scan: Scan)
    ensures scan == Check(db.Tables(), toUser, device, entries)
  {
    var prekeyIds: seq<int> := [];
    var seenPeers: set<string> := {};
    var seenSelfCopy := false;
    for i := 0 to |entries|
      invariant Check(db.Tables(), toUser, device, entries[..i]) == Passed(prekeyIds, seenPeers, seenSelfCopy)
    {
      assert entries[..i + 1][..i] == entries[..i];
      var e := entries[i];
      ghost var sofar := entries[..i + 1];
      if IsSelfCopy(e, device) {
        if seenSelfCopy {
          TurnedDownStays(db.Tables(), toUser, device, entries, i + 1);
          return TurnedDown;
        }
        seenSelfCopy := true;
      } else {
        if e.device in seenPeers {
          TurnedDownStays(db.Tables(), toUser, device, entries, i + 1);
          return TurnedDown;
        }
        seenPeers := seenPeers + {e.device};
        var valid := db.ValidateClaimedPrekey(toUser, e.device, e.prekeyId);
        if !valid {
          TurnedDownStays(db.Tables(), toUser, device, entries, i + 1);
          return TurnedDown;
        }
        prekeyIds := prekeyIds + [e.prekeyId];
      }
    }
    assert entries[..|entries|] == entries;
    return Passed(prekeyIds, seenPeers, seenSelfCopy);
  }

  lemma {:induction false} TurnedDownStays(s: Store, toUser: int, device: string, entries: Envelope, i: nat)
    requires i <= |entries| && Check(s, toUser, device, entries[..i]).TurnedDown?
    ensures Check(s, toUser, device, entries).TurnedDown?
    decreases |entries|
  {
    if i < |entries| {
      var init := entries[..|entries| - 1];
      assert init[..i] == entries[..i];
      TurnedDownStays(s, toUser, device, init, i);
    } else {
      assert entries[..i] == entries;
    }
  }

  // ---------------------------------------------------------------- what a stored message references

  /** The prekeys an envelope references for its recipients, in order; 0 marks the sender's own copy. */
  function RecipientIds(entries: Envelope): seq<int> {
    if entries == [] then []
    else
      var before := RecipientIds(entries[..|entries| - 1]);
      var id := entries[|entries| - 1].prekeyId;
      if id == SELF_COPY_PREKEY_ID then before else before + [id]
  }

  function References(entries: Envelope): set<int> {
    set id | id in RecipientIds(entries)
  }

  predicate Distinct(ids: seq<int>) {
    forall i, j | 0 <= i < j < |ids| :: ids[i] != ids[j]
  }

  /** Entries that pass name claimed prekeys of the recipient, one per device and so all different. */
  lemma {:induction false} PassedIds(s: Store, toUser: int, device: string, entries: Envelope)
    requires Sound(s) && Check(s, toUser, device, entries).Passed?
    ensures var scan := Check(s, toUser, device, entries);
            && scan.prekeyIds == RecipientIds(entries)
            && Distinct(scan.prekeyIds)
            && (forall id | id in scan.prekeyIds ::
                  id in s.prekeys && s.prekeys[id].user == toUser
                  && s.prekeys[id].status.Claimed? && s.prekeys[id].device in scan.peers)
  {
    if entries != [] {
      PassedIds(s, toUser, device, entries[..|entries| - 1]);
    }
  }

  /** Using up distinct claimed prekeys moves every one of them. */
  lemma {:induction false} AllClaimed(prekeys: map<int, Prekey>, ids: seq<int>)
    requires Distinct(ids) && forall id | id in ids :: id in prekeys && prekeys[id].status.Claimed?
    ensures |ClaimedAmong(prekeys, ids)| == |ids|
  {
    if ids == [] {
      assert ClaimedAmong(prekeys, ids) == {};
    } else {
      var init := ids[..|ids| - 1];
      var last := ids[|ids| - 1];
      AllClaimed(prekeys, init);
      assert ids == init + [last];
      assert last !in init;
      assert ClaimedAmong(prekeys, ids) == ClaimedAmong(prekeys, init) + {last};
    }
  }

  /**
   * Which envelopes pass, both ways: at most one self copy, and for the other entries distinct
   * devices, each with a claimed prekey that the recipient owns on that device.
   */
  ghost predicate Passable(s: Store, toUser: int, device: string, entries: Envelope) {
    && (forall i, j | 0 <= i < j < |entries| ::
          IsSelfCopy(entries[i], device) == IsSelfCopy(entries[j], device) ==>
            !IsSelfCopy(entries[i], device) && entries[i].device != entries[j].device)
    && (forall i | 0 <= i < |entries| && !IsSelfCopy(entries[i], device) ::
          ValidateClaimed(s, toUser, entries[i].device, entries[i].prekeyId))
  }

  ghost predicate Saw(scan: Scan, entries: Envelope, device: string) {
    && scan.Passed?
    && (forall d :: d in scan.peers <==>
          exists i :: 0 <= i < |entries| && !IsSelfCopy(entries[i], device) && entries[i].device == d)
    && (scan.selfCopy <==> exists i :: 0 <= i < |entries| && IsSelfCopy(entries[i], device))
  }

  lemma {:induction false} CheckPassesExactly(s: Store, toUser: int, device: string, entries: Envelope)
    ensures Check(s, toUser, device, entries).Passed? <==> Passable(s, toUser, device, entries)
    ensures Check(s, toUser, device, entries).Passed? ==> Saw(Check(s, toUser, device, entries), entries, device)
  {
    if entries != [] {
      var init := entries[..|entries| - 1];
      var last := entries[|entries| - 1];
      CheckPassesExactly(s, toUser, device, init);
      assert forall i | 0 <= i < |init| :: init[i] == entries[i];
      if !Passable(s, toUser, device, init) {
        assert !Passable(s, toUser, device, entries);
      } else {
        LastEntry(s, toUser, device, entries);
      }
    }
  }

  lemma {:induction false} LastEntry(s: Store, toUser: int, device: string, entries: Envelope)
    requires entries != []
    requires var init := entries[..|entries| - 1];
             Passable(s, toUser, device, init) && Saw(Check(s, toUser, device, init), init, device)
    ensures Check(s, toUser, device, entries).Passed? <==> Passable(s, toUser, device, entries)
    ensures Check(s, toUser, device, entries).Passed? ==> Saw(Check(s, toUser, device, entries), entries, device)
  {
    hide Passable, Saw, IsSelfCopy, ValidateClaimed;
    var init, e := entries[..|entries| - 1], entries[|entries| - 1];
    var scan := Check(s, toUser, device, init);
    assert scan.Passed? by { SawMeans(scan, init, device); }
    PassableOneMore(s, toUser, device, entries);
    SawMeans(scan, init, device);
    if ScanOne(s, toUser, device, scan, e).Passed? {
      SawOneMore(scan, entries, device, s, toUser);
    }
  }

  /** An entry like this one is there. */
  predicate HasLike(entries: Envelope, e: Entry, device: string) {
    exists i :: 0 <= i < |entries| && IsSelfCopy(entries[i], device) == IsSelfCopy(e, device)
      && (IsSelfCopy(e, device) || entries[i].device == e.device)
  }

  lemma SawMeans(scan: Scan, entries: Envelope, device: string)
    requires Saw(scan, entries, device)
    ensures scan.Passed?
    ensures forall e :: HasLike(entries, e, device) <==>
              if IsSelfCopy(e, device) then scan.selfCopy else e.device in scan.peers
  {
  }

  lemma PassableOneMore(s: Store, toUser: int, device: string, entries: Envelope)
    requires entries != []
    ensures var init, e := entries[..|entries| - 1], entries[|entries| - 1];
            Passable(s, toUser, device, entries) <==>
              && Passable(s, toUser, device, init)
              && !HasLike(init, e, device)
              && (IsSelfCopy(e, device) || ValidateClaimed(s, toUser, e.device, e.prekeyId))
  {
    hide IsSelfCopy, ValidateClaimed;
    var init := entries[..|entries| - 1];
    assert forall i | 0 <= i < |init| :: init[i] == entries[i];
  }

  lemma SawOneMore(scan: Scan, entries: Envelope, device: string, s: Store, toUser: int)
    requires entries != [] && Saw(scan, entries[..|entries| - 1], device)
    requires ScanOne(s, toUser, device, scan, entries[|entries| - 1]).Passed?
    ensures Saw(ScanOne(s, toUser, device, scan, entries[|entries| - 1]), entries, device)
  {
    hide IsSelfCopy, ValidateClaimed;
    var init := entries[..|entries| - 1];
    assert forall i | 0 <= i < |init| :: init[i] == entries[i];
    assert forall i | 0 <= i < |entries| :: i == |entries| - 1 || entries[i] == init[i];
  }

  // ---------------------------------------------------------------- what is answered

  /** The client message id is there and no longer than 128 characters, and there is a content. */
  predicate Complete(r: Request) {
    0 < |r.clientMessageId| <= 128 && r.content.Some?
  }

  /** A message is stored under the request's key already. */
  predicate IsStored(t: Table<Envelope>, r: Request) {
    exists row :: row in t.rows && Matches(row, KeyOf(r))
  }

  /** The envelope decodes and passes, and at least one of its entries is for somebody else. */
  ghost predicate Deliverable(s: Store, r: Request) {
    && r.content.Some? && r.content.value.Some?
    && var entries := r.content.value.value;
       && entries != [] && (forall e | e in entries :: e.device != "" && e.prekeyId >= 0)
       && Passable(s, r.toUser, r.device, entries)
       && exists i :: 0 <= i < |entries| && !IsSelfCopy(entries[i], r.device)
  }

  lemma {:induction false} PeersNamePrekeys(s: Store, toUser: int, device: string, entries: Envelope)
    requires Check(s, toUser, device, entries).Passed?
    ensures Check(s, toUser, device, entries).prekeyIds != [] <==>
            exists i :: 0 <= i < |entries| && !IsSelfCopy(entries[i], device)
  {
    hide ValidateClaimed, IsSelfCopy;
    if entries != [] {
      var init := entries[..|entries| - 1];
      PeersNamePrekeys(s, toUser, device, init);
      assert forall i | 0 <= i < |init| :: init[i] == entries[i];
    }
  }

  lemma LookupExactly(t: Table<Envelope>, r: Request)
    requires r.clientMessageId != ""
    ensures Lookup(t.rows, KeyOf(r)).Some? <==> IsStored(t, r)
  {
  }

  /** Which answer a request gets, for every one of them. */
  lemma {:induction false} AnsweredExactly(s: Server, r: Request)
    ensures var outcome := Send(s, r).1;
            var valid := 0 < |r.clientMessageId| <= 128;
            var toPeer := r.toUser > 0 && r.toUser != r.sender;
            && (outcome.BadRequest? <==> !valid || (toPeer && r.content.None?))
            && (outcome.CannotSendToSelf? <==> valid && !toPeer)
            && (outcome.Reused? <==> Complete(r) && toPeer && IsStored(s.messages, r))
            && (outcome.Sent? <==> Complete(r) && toPeer && !IsStored(s.messages, r) && Deliverable(s.keys, r))
  {
    hide Check, Passable, Consume, Matches, IsStored, IsSelfCopy;
    if r.clientMessageId != "" {
      LookupExactly(s.messages, r);
    }
    if r.content.Some? && r.content.value.Some? {
      var entries := r.content.value.value;
      CheckPassesExactly(s.keys, r.toUser, r.device, entries);
      if Check(s.keys, r.toUser, r.device, entries).Passed? {
        PeersNamePrekeys(s.keys, r.toUser, r.device, entries);
      }
    }
  }

  /** The row is the message of this request, as it was first stored. */
  predicate IsRowOf(row: Row<Envelope>, id: int, r: Request) {
    && row.id == id
    && row.sender == r.sender
    && row.device == (if r.device == "" then None else Some(r.device))
    && row.clientMessageId == Some(r.clientMessageId)
    && r.content == Some(Some(row.content))
    && !row.edited && !row.deleted
  }

  /**
   * The answer names the row that holds the message: a new row behind all others, or the one
   * already there under the same key, and then nothing changes.  A refusal changes nothing.
   */
  lemma {:induction false} AnswerNamesTheRow(s: Server, r: Request)
    ensures var (t, outcome) := Send(s, r);
            match outcome
            case Sent(id) =>
              && |t.messages.rows| == |s.messages.rows| + 1
              && s.messages.rows <= t.messages.rows
              && IsRowOf(t.messages.rows[|s.messages.rows|], id, r)
              && id == t.messages.lastId == s.messages.lastId + 1
            case Reused(id) =>
              t == s && exists row :: row in s.messages.rows && row.id == id && Matches(row, KeyOf(r))
            case _ => t == s
  {
    hide Check, Decoded, Consume;
  }

  /** The two requests are of one client message, and the second gets as far as the look-up. */
  predicate Resends(first: Request, second: Request) {
    && KeyOf(second) == KeyOf(first)
    && second.toUser > 0 && second.toUser != second.sender && second.content.Some?
  }
}
