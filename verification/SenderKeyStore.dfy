/**
 * The client's own sender keys: one in memory per group, and a table that survives
 * restarts.  Only rows of this user and this device are modelled; rows of other senders
 * are never used to send.
 */
module SenderKeyStore {
  import opened Wrappers
  import opened GroupE2eeCrypto

  /** The private key is missing from rows written by the receiving side. */
  datatype Row = Row(
    group: int,
    keyId: nat,
    chainKey: Option<ChainKey>,
    publicSigningKey: Option<nat>,
    privateSigningKey: Option<nat>,
    iteration: int)

  /** `rows` are in the order they were last written, so the latest of a group comes last. */
  datatype Client = Client(memory: map<int, SenderKey>, rows: seq<Row>)

  function RowOf(group: int, key: SenderKey): Row {
    Row(group, key.keyId, key.chainKey, key.publicSigningKey, key.privateSigningKey, key.iteration)
  }

  function Without(rows: seq<Row>, group: int, keyId: nat): seq<Row> {
    if rows == [] then []
    else
      var before := Without(rows[..|rows| - 1], group, keyId);
      var last := rows[|rows| - 1];
      if last.group == group && last.keyId == keyId then before else before + [last]
  }

  function WithoutGroup(rows: seq<Row>, group: int): seq<Row> {
    if rows == [] then []
    else
      var before := WithoutGroup(rows[..|rows| - 1], group);
      if rows[|rows| - 1].group == group then before else before + [rows[|rows| - 1]]
  }

  /** Insert or replace: the row moves to the end of the write order. */
  function Save(rows: seq<Row>, row: Row): seq<Row> {
    Without(rows, row.group, row.keyId) + [row]
  }

  /** The most recently written row of a group. */
  function Latest(rows: seq<Row>, group: int): Option<Row> {
    if rows == [] then None
    else if rows[|rows| - 1].group == group then Some(rows[|rows| - 1])
    else Latest(rows[..|rows| - 1], group)
  }

  /** A row can be sent with only if all three of its keys are there. */
  predicate Usable(row: Row) {
    row.chainKey.Some? && row.publicSigningKey.Some? && row.privateSigningKey.Some?
  }

  function Loaded(row: Row): SenderKey {
    SenderKey(row.keyId, row.chainKey, row.publicSigningKey, row.privateSigningKey, row.iteration, true)
  }

  /** The key to send with: the one in memory, failing that the latest stored one if it is usable. */
  function Ensure(c: Client, group: int): (Client, Option<SenderKey>) {
    if group <= 0 then (c, None)
    else if group in c.memory && c.memory[group].valid then (c, Some(c.memory[group]))
    else
      var latest := Latest(c.rows, group);
      if latest.Some? && Usable(latest.value)
      then (c.(memory := c.memory[group := Loaded(latest.value)]), Some(Loaded(latest.value)))
      else (c, None)
  }

  /** One group message; `written` says whether the write of the stepped key reached the table. */
  function EncryptGroup(c: Client, group: int, plaintext: string, iv: Option<nat>, written: bool)
    : (Client, Option<EncryptedMessage>)
  {
    var (ensured, key) := Ensure(c, group);
    if key.None? then (ensured, None)
    else
      var (stepped, msg) := Encrypt(key.value, plaintext, iv);
      if msg.None? then (ensured, None)
      else
        (Client(ensured.memory[group := stepped],
                if written then Save(ensured.rows, RowOf(group, stepped)) else ensured.rows), msg)
  }

  class GroupKeys {
    var memory: map<int, SenderKey>
    var rows: seq<Row>

    ghost function State(): Client
      reads this
    {
      Client(memory, rows)
    }

    constructor ()
      ensures State() == Client(map[], [])
    {
      memory, rows := map[], [];
    }

    method SaveSenderKey(row: Row)
      modifies this`rows
      ensures rows == Save(old(rows), row)
    {
      var kept: seq<Row> := [];
      for i := 0 to |rows|
        invariant rows == old(rows)
        invariant kept == Without(rows[..i], row.group, row.keyId)
      {
        assert rows[..i + 1][..i] == rows[..i];
        if rows[i].group != row.group || rows[i].keyId != row.keyId {
          kept := kept + [rows[i]];
        }
      }
      assert rows[..|rows|] == rows;
      rows := kept + [row];
    }

    method LatestSenderKey(group: int) returns (latest: Option<Row>)
      ensures latest == Latest(rows, group)
    {
      var i := |rows|;
      assert rows[..i] == rows;
      while i > 0
        invariant 0 <= i <= |rows|
        invariant Latest(rows, group) == Latest(rows[..i], group)
      {
        assert rows[..i][..i - 1] == rows[..i - 1];
        i := i - 1;
        if rows[i].group == group {
          return Some(rows[i]);
        }
      }
      return None;
    }

    method EnsureGroupSenderKey(group: int) returns (key: Option<SenderKey>)
      modifies this`memory
      ensures (State(), key) == Ensure(old(State()), group)
    {
      if group <= 0 {
        return None;
      }
      if group in memory && memory[group].valid {
        return Some(memory[group]);
      }
      var latest := LatestSenderKey(group);
      if latest.Some? && Usable(latest.value) {
        memory := memory[group := Loaded(latest.value)];
        return Some(Loaded(latest.value));
      }
      return None;
    }

    method EncryptGroupMessage(group: int, plaintext: string, iv: Option<nat>, written: bool)
      returns (msg: Option<EncryptedMessage>)
      modifies this
      ensures (State(), msg) == EncryptGroup(old(State()), group, plaintext, iv, written)
    {
      var key := EnsureGroupSenderKey(group);
      if key.None? {
        return None;
      }
      var sender := new GroupSender(key.value);
      msg := sender.EncryptMessage(plaintext, iv);
      if msg.None? {
        return None;
      }
      var stepped := SenderKey(sender.keyId, sender.chainKey, sender.publicSigningKey, sender.privateSigningKey,
                               sender.iteration, sender.valid);
      if written {
        SaveSenderKey(RowOf(group, stepped));
      }
      memory := memory[group := stepped];
    }
  }

  // ---------------------------------------------------------------- runs

  datatype Step =
    /** Send or edit a group message. */
    | SendStep(group: int, plaintext: string, iv: Option<nat>, written: bool)
    /** Generate a fresh key for the group and distribute it. */
    | RotateStep(group: int, written: bool)
    /** The receiving side writes a row for one of our own keys: a distribution of ours coming
        back (the seed at iteration 0), or a message of ours that could be decrypted. */
    | ReceiveStep(group: int, keyId: nat, chainKey: Option<ChainKey>, publicSigningKey: Option<nat>, iteration: int)
    /** Disconnect, log out or restart: memory is lost, the table is not. */
    | ForgetStep
    /** We were removed from the group. */
    | RemovedStep(group: int)
    /** We left the group. */
    | LeaveStep(group: int)

  /** `origins` lists, by key id, the group each key was generated for. */
  datatype System = System(client: Client, origins: seq<int>, emitted: seq<EncryptedMessage>)

  function Apply(s: System, step: Step): System {
    var c := s.client;
    match step
    case SendStep(group, plaintext, iv, written) =>
      var (after, msg) := EncryptGroup(c, group, plaintext, iv, written);
      s.(client := after, emitted := if msg.Some? then s.emitted + [msg.value] else s.emitted)
    case RotateStep(group, written) =>
      var id := |s.origins|;
      var key := GenerateSenderKey(id, id, id);
      if group <= 0 then s
      else System(Client(c.memory[group := key], if written then Save(c.rows, RowOf(group, key)) else c.rows),
             s.origins + [group], s.emitted)
    case ReceiveStep(group, keyId, chainKey, publicSigningKey, iteration) =>
      s.(client := c.(rows := Save(c.rows, Row(group, keyId, chainKey, publicSigningKey, None, iteration))))
    case ForgetStep => s.(client := c.(memory := map[]))
    case RemovedStep(group) => s.(client := c.(memory := c.memory - {group}))
    case LeaveStep(group) => s.(client := Client(c.memory - {group}, WithoutGroup(c.rows, group)))
  }

  function After(steps: seq<Step>): System {
    if steps == [] then System(Client(map[], []), [], []) else Apply(After(steps[..|steps| - 1]), steps[|steps| - 1])
  }

  // ---------------------------------------------------------------- when a key goes back

  /** A message with a higher iteration has been sent under the key. */
  predicate Behind(keyId: nat, iteration: int, emitted: seq<EncryptedMessage>) {
    exists k :: 0 <= k < |emitted| && emitted[k].keyId == keyId && emitted[k].iteration > iteration
  }

  /** The group's latest row can be sent with. */
  predicate HasUsable(rows: seq<Row>, group: int) {
    Latest(rows, group).Some? && Usable(Latest(rows, group).value)
  }

  /** The next send in this group loads the latest row. */
  predicate Loads(c: Client, group: int) {
    group > 0 && HasUsable(c.rows, group) && !(group in c.memory && c.memory[group].valid)
  }

  predicate Emits(s: System, step: Step) {
    step.SendStep? && EncryptGroup(s.client, step.group, step.plaintext, step.iv, step.written).1.Some?
  }

  /** The step sends a message under this key. */
  predicate EmitsUnder(s: System, step: Step, keyId: nat) {
    && Emits(s, step)
    && EncryptGroup(s.client, step.group, step.plaintext, step.iv, step.written).1.value.keyId == keyId
  }

  /** The last message sent under the key lost its write. */
  predicate LastLost(steps: seq<Step>, keyId: nat) {
    steps != []
    && var init, last := steps[..|steps| - 1], steps[|steps| - 1];
       if EmitsUnder(After(init), last, keyId) then !last.written else LastLost(init, keyId)
  }

  /** The group's key in memory was loaded when the last message sent under it had lost its write. */
  predicate Stale(steps: seq<Step>, group: int) {
    steps != []
    && var init, last := steps[..|steps| - 1], steps[|steps| - 1];
       var c := After(init).client;
       match last
       case SendStep(g, _, _, _) =>
         if g == group && Loads(c, g) then LastLost(init, Latest(c.rows, g).value.keyId) else Stale(init, group)
       case RotateStep(g, _) => !(g == group && group > 0) && Stale(init, group)
       case ReceiveStep(_, _, _, _, _) => Stale(init, group)
       case ForgetStep => false
       case RemovedStep(g) => g != group && Stale(init, group)
       case LeaveStep(g) => g != group && Stale(init, group)
  }

  /** Step `k` sends a message, under a key that is stale. */
  predicate SendsStale(steps: seq<Step>, k: int) {
    0 <= k < |steps| && Emits(After(steps[..k]), steps[k]) && Stale(steps[..k + 1], steps[k].group)
  }

  /** The step sends a message, under a key that is behind. */
  predicate SendsBehind(s: System, step: Step) {
    && Emits(s, step)
    && var key := Ensure(s.client, step.group).1.value;
       Behind(key.keyId, key.iteration, s.emitted)
  }

  predicate NeverSendsBehind(steps: seq<Step>) {
    forall k | 0 <= k < |steps| :: !SendsBehind(After(steps[..k]), steps[k])
  }

  /** Two messages went out under one key id and iteration, sealed under one message key. */
  predicate Repeated(emitted: seq<EncryptedMessage>, i: int, j: int) {
    && 0 <= i < j < |emitted|
    && emitted[i].keyId == emitted[j].keyId
    && emitted[i].iteration == emitted[j].iteration
    && emitted[i].ciphertext.Gcm? && emitted[j].ciphertext.Gcm?
    && emitted[i].ciphertext.key == emitted[j].ciphertext.key
  }

  // ---------------------------------------------------------------- no iteration is emitted twice

  function ChainAt(keyId: nat, iteration: nat): ChainKey {
    RatchetBy(Seed(keyId), iteration)
  }

  ghost predicate WasEmitted(emitted: seq<EncryptedMessage>, keyId: nat, iteration: int) {
    exists k :: 0 <= k < |emitted| && emitted[k].keyId == keyId && emitted[k].iteration == iteration
  }

  /** A key of this group, on its own chain, whose iterations so far have all been emitted. */
  ghost predicate KeySound(key: SenderKey, group: int, origins: seq<int>, emitted: seq<EncryptedMessage>) {
    && key.keyId < |origins|
    && origins[key.keyId] == group
    && key.valid && key.publicSigningKey.Some? && key.privateSigningKey.Some?
    && key.iteration >= 0
    && key.chainKey == Some(ChainAt(key.keyId, key.iteration))
    && forall i | 1 <= i <= key.iteration :: WasEmitted(emitted, key.keyId, i)
  }

  /** A message is sealed under the message key of its key id and iteration, and all before it were emitted. */
  ghost predicate MessageSound(m: EncryptedMessage, origins: seq<int>, emitted: seq<EncryptedMessage>) {
    && m.keyId < |origins|
    && m.iteration > 0
    && m.ciphertext.Gcm?
    && m.ciphertext.key == MsgKey(ChainAt(m.keyId, m.iteration), m.iteration)
    && forall i | 1 <= i <= m.iteration :: WasEmitted(emitted, m.keyId, i)
  }

  ghost predicate Distinct(emitted: seq<EncryptedMessage>) {
    forall i, j | 0 <= i < j < |emitted| ::
      emitted[i].keyId == emitted[j].keyId ==> emitted[i].iteration != emitted[j].iteration
  }

  ghost predicate MemorySound(s: System) {
    forall g | g in s.client.memory :: KeySound(s.client.memory[g], g, s.origins, s.emitted)
  }

  ghost predicate RowsSound(s: System) {
    forall row | row in s.client.rows && Usable(row) :: KeySound(Loaded(row), row.group, s.origins, s.emitted)
  }

  ghost predicate MessagesSound(s: System) {
    forall k | 0 <= k < |s.emitted| :: MessageSound(s.emitted[k], s.origins, s.emitted)
  }

  ghost predicate Sound(s: System) {
    MemorySound(s) && RowsSound(s) && MessagesSound(s) && Distinct(s.emitted)
  }

  lemma {:induction false} WithoutKeeps(rows: seq<Row>, group: int, keyId: nat)
    ensures forall row :: row in Without(rows, group, keyId) <==>
              row in rows && !(row.group == group && row.keyId == keyId)
    ensures forall other | other != group :: Latest(Without(rows, group, keyId), other) == Latest(rows, other)
  {
    if rows != [] {
      WithoutKeeps(rows[..|rows| - 1], group, keyId);
      assert rows == rows[..|rows| - 1] + [rows[|rows| - 1]];
    }
  }

  lemma {:induction false} WithoutGroupKeeps(rows: seq<Row>, group: int)
    ensures forall row :: row in WithoutGroup(rows, group) <==> row in rows && row.group != group
    ensures forall other | other != group :: Latest(WithoutGroup(rows, group), other) == Latest(rows, other)
  {
    if rows != [] {
      WithoutGroupKeeps(rows[..|rows| - 1], group);
      assert rows == rows[..|rows| - 1] + [rows[|rows| - 1]];
    }
  }

  /** A save replaces the row of its key and no other; it becomes its group's latest, and no other group's changes. */
  lemma SaveReplacesOneRow(rows: seq<Row>, row: Row)
    ensures forall r :: r in Save(rows, row) <==>
              r == row || (r in rows && !(r.group == row.group && r.keyId == row.keyId))
    ensures forall g :: Latest(Save(rows, row), g) == if g == row.group then Some(row) else Latest(rows, g)
  {
    WithoutKeeps(rows, row.group, row.keyId);
  }

  lemma {:induction false} LatestIsStored(rows: seq<Row>, group: int)
    ensures Latest(rows, group).Some? ==> Latest(rows, group).value in rows && Latest(rows, group).value.group == group
  {
    if rows != [] {
      LatestIsStored(rows[..|rows| - 1], group);
    }
  }

  lemma SavedIsLatest(rows: seq<Row>, row: Row)
    ensures Latest(Save(rows, row), row.group) == Some(row)
  {
  }

  lemma LoadedFacts(row: Row)
    ensures Loaded(row).keyId == row.keyId && Loaded(row).iteration == row.iteration
  {
  }

  /** The key a send uses is sound, and comes from memory or from the latest row. */
  lemma {:induction false} EnsureKeepsSound(s: System, group: int)
    requires Sound(s)
    ensures var (c, key) := Ensure(s.client, group);
            && c.rows == s.client.rows
            && (key.None? ==> c == s.client)
            && (key.Some? ==>
                  && c.memory == s.client.memory[group := key.value]
                  && KeySound(key.value, group, s.origins, s.emitted)
                  && (if group in s.client.memory then key.value == s.client.memory[group]
                      else HasUsable(c.rows, group) && key.value == Loaded(Latest(c.rows, group).value)))
  {
    hide Latest, KeySound, MessagesSound, Distinct, Loaded;
    LatestIsStored(s.client.rows, group);
    if group in s.client.memory {
      assert s.client.memory == s.client.memory[group := s.client.memory[group]];
      SoundIsValid(s, group);
    }
  }

  lemma SoundIsValid(s: System, group: int)
    requires MemorySound(s) && group in s.client.memory
    ensures s.client.memory[group].valid
  {
  }

  lemma SteppedIsSound(key: SenderKey, group: int, origins: seq<int>, emitted: seq<EncryptedMessage>,
                       plaintext: string, iv: Option<nat>)
    requires KeySound(key, group, origins, emitted) && Encrypt(key, plaintext, iv).1.Some?
    ensures var (stepped, msg) := Encrypt(key, plaintext, iv);
            && KeySound(stepped, group, origins, emitted + [msg.value])
            && MessageSound(msg.value, origins, emitted + [msg.value])
            && msg.value.keyId == key.keyId == stepped.keyId
            && msg.value.iteration == stepped.iteration == key.iteration + 1
            && Loaded(RowOf(group, stepped)) == stepped && Usable(RowOf(group, stepped))
  {
    var (stepped, msg) := Encrypt(key, plaintext, iv);
    forall i | 1 <= i <= stepped.iteration
      ensures WasEmitted(emitted + [msg.value], key.keyId, i)
    {
      EmittedStays(emitted, msg.value, key.keyId, i);
    }
  }

  lemma EmittedStays(emitted: seq<EncryptedMessage>, msg: EncryptedMessage, keyId: nat, i: int)
    ensures WasEmitted(emitted, keyId, i) ==> WasEmitted(emitted + [msg], keyId, i)
    ensures msg.keyId == keyId && msg.iteration == i ==> WasEmitted(emitted + [msg], keyId, i)
  {
    var more := emitted + [msg];
    if WasEmitted(emitted, keyId, i) {
      var k :| 0 <= k < |emitted| && emitted[k].keyId == keyId && emitted[k].iteration == i;
      assert more[k].keyId == keyId && more[k].iteration == i;
    }
    assert more[|emitted|] == msg;
  }

  /** One more message leaves every key as sound as it was. */
  lemma KeyStaysSound(key: SenderKey, group: int, origins: seq<int>, emitted: seq<EncryptedMessage>,
                      msg: EncryptedMessage)
    requires KeySound(key, group, origins, emitted)
    ensures KeySound(key, group, origins, emitted + [msg])
  {
    forall i | 1 <= i <= key.iteration
      ensures WasEmitted(emitted + [msg], key.keyId, i)
    {
      EmittedStays(emitted, msg, key.keyId, i);
    }
  }

  lemma MessageStaysSound(m: EncryptedMessage, origins: seq<int>, emitted: seq<EncryptedMessage>, msg: EncryptedMessage)
    requires MessageSound(m, origins, emitted)
    ensures MessageSound(m, origins, emitted + [msg])
  {
    forall i | 1 <= i <= m.iteration
      ensures WasEmitted(emitted + [msg], m.keyId, i)
    {
      EmittedStays(emitted, msg, m.keyId, i);
    }
  }

  /** The state after a message has gone out under `key`. */
  function Emit(s: System, group: int, key: SenderKey, plaintext: string, iv: Option<nat>, written: bool): System
    requires Encrypt(key, plaintext, iv).1.Some?
  {
    var (stepped, msg) := Encrypt(key, plaintext, iv);
    System(Client(s.client.memory[group := stepped],
                  if written then Save(s.client.rows, RowOf(group, stepped)) else s.client.rows),
           s.origins, s.emitted + [msg.value])
  }

  lemma {:induction false} EmitKeepsSound(s: System, group: int, key: SenderKey, plaintext: string, iv: Option<nat>,
                                          written: bool)
    requires Sound(s) && KeySound(key, group, s.origins, s.emitted) && !Behind(key.keyId, key.iteration, s.emitted)
    requires Encrypt(key, plaintext, iv).1.Some?
    ensures Sound(Emit(s, group, key, plaintext, iv, written))
  {
    hide MessageSound, Encrypt, Loaded, Usable, RowOf;
    var (stepped, msg) := Encrypt(key, plaintext, iv);
    var t := Emit(s, group, key, plaintext, iv, written);
    SteppedIsSound(key, group, s.origins, s.emitted, plaintext, iv);
    forall g | g in t.client.memory
      ensures KeySound(t.client.memory[g], g, t.origins, t.emitted)
    {
      if g != group {
        KeyStaysSound(s.client.memory[g], g, s.origins, s.emitted, msg.value);
      }
    }
    WithoutKeeps(s.client.rows, group, stepped.keyId);
    RowFacts(group, stepped);
    forall row | row in t.client.rows && Usable(row)
      ensures KeySound(Loaded(row), row.group, t.origins, t.emitted)
    {
      if row in s.client.rows {
        KeyStaysSound(Loaded(row), row.group, s.origins, s.emitted, msg.value);
      }
    }
    forall k | 0 <= k < |s.emitted|
      ensures MessageSound(t.emitted[k], t.origins, t.emitted)
    {
      MessageStaysSound(s.emitted[k], s.origins, s.emitted, msg.value);
    }
  }

  lemma RowFacts(group: int, key: SenderKey)
    ensures RowOf(group, key).group == group && RowOf(group, key).keyId == key.keyId
  {
  }

  lemma {:induction false} RotateKeepsSound(s: System, group: int, written: bool)
    requires Sound(s)
    ensures Sound(Apply(s, RotateStep(group, written)))
  {
    if group > 0 {
      var id := |s.origins|;
      var key := GenerateSenderKey(id, id, id);
      var t := Apply(s, RotateStep(group, written));
      WithoutKeeps(s.client.rows, group, id);
      assert forall k | 0 <= k < |s.emitted| :: MessageSound(s.emitted[k], s.origins, s.emitted);
      assert KeySound(key, group, t.origins, s.emitted);
      forall g | g in s.client.memory && g != group
        ensures KeySound(s.client.memory[g], g, t.origins, s.emitted)
      {
        assert KeySound(s.client.memory[g], g, s.origins, s.emitted);
      }
      forall row | row in t.client.rows && Usable(row)
        ensures KeySound(Loaded(row), row.group, t.origins, t.emitted)
      {
        if row in s.client.rows {
          assert KeySound(Loaded(row), row.group, s.origins, s.emitted);
        }
      }
    }
  }

  /** Dropping keys from memory, dropping rows and writing rows without a private key takes no care. */
  lemma LessKeepsSound(s: System, c: Client)
    requires Sound(s)
    requires forall g | g in c.memory :: g in s.client.memory && c.memory[g] == s.client.memory[g]
    requires forall row | row in c.rows && Usable(row) :: row in s.client.rows
    ensures Sound(s.(client := c))
  {
    hide Usable, Loaded, KeySound, MessageSound, Distinct;
  }

  lemma LoadKeepsSound(s: System, group: int, key: SenderKey)
    requires Sound(s) && KeySound(key, group, s.origins, s.emitted)
    ensures Sound(s.(client := s.client.(memory := s.client.memory[group := key])))
  {
    hide KeySound, MessageSound, Distinct, Loaded;
  }

  lemma {:induction false} StepKeepsSound(s: System, step: Step)
    requires Sound(s) && !SendsBehind(s, step)
    ensures Sound(Apply(s, step))
  {
    hide Latest, Sound, Encrypt, WithoutGroup, Without, Behind;
    match step
    case SendStep(group, plaintext, iv, written) =>
      hide Save;
      EnsureKeepsSound(s, group);
      var (c, key) := Ensure(s.client, group);
      if key.Some? {
        if Encrypt(key.value, plaintext, iv).1.Some? {
          EmitKeepsSound(s, group, key.value, plaintext, iv, written);
          assert Apply(s, step) == Emit(s, group, key.value, plaintext, iv, written);
        } else {
          LoadKeepsSound(s, group, key.value);
          assert Apply(s, step) == s.(client := c);
        }
      }
    case RotateStep(group, written) =>
      hide Save;
      RotateKeepsSound(s, group, written);
    case ReceiveStep(group, keyId, _, _, _) =>
      WithoutKeeps(s.client.rows, group, keyId);
      LessKeepsSound(s, Apply(s, step).client);
    case ForgetStep =>
      LessKeepsSound(s, Apply(s, step).client);
    case RemovedStep(group) =>
      LessKeepsSound(s, Apply(s, step).client);
    case LeaveStep(group) =>
      WithoutGroupKeeps(s.client.rows, group);
      LessKeepsSound(s, Apply(s, step).client);
  }

  lemma {:induction false} NeverSendsBefore(steps: seq<Step>, n: nat)
    requires n <= |steps| && NeverSendsBehind(steps)
    ensures NeverSendsBehind(steps[..n])
  {
    hide After;
    forall k | 0 <= k < n
      ensures !SendsBehind(After(steps[..n][..k]), steps[..n][k])
    {
      assert steps[..n][..k] == steps[..k];
    }
  }

  lemma {:induction false} RunIsSound(steps: seq<Step>)
    requires NeverSendsBehind(steps)
    ensures Sound(After(steps))
  {
    if steps != [] {
      hide Sound, Apply, SendsBehind;
      var n := |steps| - 1;
      NeverSendsBefore(steps, n);
      RunIsSound(steps[..n]);
      StepKeepsSound(After(steps[..n]), steps[n]);
    } else {
      assert Sound(After([]));
    }
  }

  lemma {:induction false} EmittedGrows(steps: seq<Step>, n: nat)
    requires n <= |steps|
    ensures After(steps[..n]).emitted <= After(steps).emitted
  {
    hide EncryptGroup, Save, WithoutGroup;
    if n < |steps| {
      EmittedGrows(steps[..|steps| - 1], n);
      assert steps[..|steps| - 1][..n] == steps[..n];
    } else {
      assert steps[..n] == steps;
    }
  }

  /** A message under a key that is behind has the iteration of one already sent. */
  lemma BehindRepeats(s: System, step: Step)
    requires Sound(s) && SendsBehind(s, step)
    ensures exists i, j :: Repeated(Apply(s, step).emitted, i, j)
  {
    hide Latest, Save, MemorySound, RowsSound, Distinct, Encrypt;
    EnsureKeepsSound(s, step.group);
    var key := Ensure(s.client, step.group).1.value;
    SteppedIsSound(key, step.group, s.origins, s.emitted, step.plaintext, step.iv);
    var t := Apply(s, step);
    var n := |s.emitted|;
    assert t.emitted == s.emitted + [Encrypt(key, step.plaintext, step.iv).1.value];
    var k :| 0 <= k < n && s.emitted[k].keyId == key.keyId && s.emitted[k].iteration > key.iteration;
    assert MessageSound(s.emitted[k], s.origins, s.emitted);
    assert WasEmitted(s.emitted, key.keyId, key.iteration + 1);
    var i :| 0 <= i < n && s.emitted[i].keyId == key.keyId && s.emitted[i].iteration == key.iteration + 1;
    assert MessageSound(s.emitted[i], s.origins, s.emitted);
    assert t.emitted[i] == s.emitted[i] && t.emitted[n].iteration == key.iteration + 1;
    assert Repeated(t.emitted, i, n);
  }

  /**
   * Over every run, whichever writes are lost, an iteration of a key is emitted twice if and
   * only if some message is sent under a key that is behind what was sent under it before.
   */
  lemma {:induction false} RepeatsWhenBehind(steps: seq<Step>)
    ensures (exists i, j :: Repeated(After(steps).emitted, i, j)) <==> !NeverSendsBehind(steps)
  {
    hide Apply, After, SendsBehind, Sound;
    if NeverSendsBehind(steps) {
      RunIsSound(steps);
      forall i, j
        ensures !Repeated(After(steps).emitted, i, j)
      {
        DistinctIsNotRepeated(After(steps), i, j);
      }
    } else {
      var k :| 0 <= k < |steps| && SendsBehind(After(steps[..k]), steps[k]);
      if NeverSendsBehind(steps[..k]) {
        RunIsSound(steps[..k]);
        BehindRepeats(After(steps[..k]), steps[k]);
        AfterStep(steps, k);
        EmittedGrows(steps, k + 1);
        var i, j :| Repeated(After(steps[..k + 1]).emitted, i, j);
        assert Repeated(After(steps).emitted, i, j);
      } else {
        RepeatsWhenBehind(steps[..k]);
        EmittedGrows(steps, k);
        var i, j :| Repeated(After(steps[..k]).emitted, i, j);
        assert Repeated(After(steps).emitted, i, j);
      }
    }
  }

  lemma DistinctIsNotRepeated(s: System, i: int, j: int)
    requires Sound(s)
    ensures !Repeated(s.emitted, i, j)
  {
  }

  lemma AfterStep(steps: seq<Step>, i: nat)
    requires i < |steps|
    ensures After(steps[..i + 1]) == Apply(After(steps[..i]), steps[i])
  {
    assert steps[..i + 1][..i] == steps[..i];
  }

  // ---------------------------------------------------------------- which writes were lost

  /** What is behind is what the lost writes say. */
  ghost predicate Accounts(steps: seq<Step>) {
    var s := After(steps);
    && (forall row | row in s.client.rows && Usable(row) ::
          Behind(row.keyId, row.iteration, s.emitted) <==> LastLost(steps, row.keyId))
    && (forall g | g in s.client.memory ::
          Behind(s.client.memory[g].keyId, s.client.memory[g].iteration, s.emitted) <==> Stale(steps, g))
    && (forall id: nat | id >= |s.origins| :: !LastLost(steps, id))
  }

  /** One step more, for every key and every group. */
  lemma LostOneMore(steps: seq<Step>, step: Step)
    ensures forall id: nat :: LastLost(steps + [step], id) <==>
              if EmitsUnder(After(steps), step, id) then !step.written else LastLost(steps, id)
    ensures !Emits(After(steps), step) ==> forall id: nat :: LastLost(steps + [step], id) <==> LastLost(steps, id)
  {
    assert (steps + [step])[..|steps|] == steps;
  }

  lemma StaleOneMore(steps: seq<Step>, step: Step)
    ensures var c := After(steps).client;
            forall g :: Stale(steps + [step], g) <==>
              match step
              case SendStep(h, _, _, _) =>
                if h == g && Loads(c, h) then LastLost(steps, Latest(c.rows, h).value.keyId) else Stale(steps, g)
              case RotateStep(h, _) => !(h == g && g > 0) && Stale(steps, g)
              case ReceiveStep(_, _, _, _, _) => Stale(steps, g)
              case ForgetStep => false
              case RemovedStep(h) => h != g && Stale(steps, g)
              case LeaveStep(h) => h != g && Stale(steps, g)
  {
    hide Loads, LastLost, Latest;
    assert (steps + [step])[..|steps|] == steps;
  }

  lemma BehindOneMore(keyId: nat, iteration: int, emitted: seq<EncryptedMessage>, msg: EncryptedMessage)
    ensures Behind(keyId, iteration, emitted + [msg]) <==>
            Behind(keyId, iteration, emitted) || (msg.keyId == keyId && msg.iteration > iteration)
  {
    var more := emitted + [msg];
    if Behind(keyId, iteration, emitted) {
      var k :| 0 <= k < |emitted| && emitted[k].keyId == keyId && emitted[k].iteration > iteration;
      assert more[k].keyId == keyId && more[k].iteration > iteration;
    }
    assert more[|emitted|] == msg;
  }

  /** Two sound keys of one id are in order, the one that is not behind last. */
  lemma BothAhead(a: SenderKey, b: SenderKey, group: int, origins: seq<int>, emitted: seq<EncryptedMessage>)
    requires KeySound(a, group, origins, emitted) && KeySound(b, group, origins, emitted) && a.keyId == b.keyId
    requires !Behind(a.keyId, a.iteration, emitted)
    ensures b.iteration <= a.iteration
  {
    assert b.iteration >= 1 ==> WasEmitted(emitted, a.keyId, b.iteration);
  }

  lemma KeysDiffer(s: System, group: int, key: SenderKey)
    requires Sound(s) && KeySound(key, group, s.origins, s.emitted)
    ensures forall g | g in s.client.memory && g != group :: s.client.memory[g].keyId != key.keyId
    ensures forall row | row in s.client.rows && Usable(row) && row.keyId == key.keyId :: row.group == group
  {
    forall row | row in s.client.rows && Usable(row)
      ensures row.keyId == key.keyId ==> row.group == group
    {
      LoadedFacts(row);
      assert KeySound(Loaded(row), row.group, s.origins, s.emitted);
    }
  }

  /** How far along its chain an emission puts the key it is under, and every row of that key. */
  lemma {:induction false} EmissionFacts(s: System, step: Step)
    requires Sound(s) && Emits(s, step) && !SendsBehind(s, step)
    ensures var key := Ensure(s.client, step.group).1.value;
            var t := Apply(s, step);
            && |t.emitted| == |s.emitted| + 1 && s.emitted <= t.emitted && t.origins == s.origins
            && t.emitted[|s.emitted|].keyId == key.keyId
            && t.emitted[|s.emitted|].iteration == key.iteration + 1
            && (forall id: nat :: EmitsUnder(s, step, id) <==> id == key.keyId)
            && step.group in t.client.memory
            && t.client.memory == s.client.memory[step.group := t.client.memory[step.group]]
            && t.client.memory[step.group].keyId == key.keyId
            && t.client.memory[step.group].iteration == key.iteration + 1
            && (forall row | row in t.client.rows && Usable(row) ::
                  if row.keyId == key.keyId && step.written then row.iteration == key.iteration + 1
                  else row in s.client.rows && (row.keyId == key.keyId ==> row.iteration <= key.iteration))
  {
    hide Latest, MemorySound, MessagesSound, Distinct, Encrypt, Behind, RowOf;
    var group := step.group;
    EnsureKeepsSound(s, group);
    var key := Ensure(s.client, group).1.value;
    SteppedIsSound(key, group, s.origins, s.emitted, step.plaintext, step.iv);
    var stepped := Encrypt(key, step.plaintext, step.iv).0;
    KeysDiffer(s, group, key);
    WithoutKeeps(s.client.rows, group, stepped.keyId);
    RowFacts(group, stepped);
    forall row | row in s.client.rows && Usable(row) && row.keyId == key.keyId
      ensures row.iteration <= key.iteration
    {
      LoadedFacts(row);
      BothAhead(key, Loaded(row), group, s.origins, s.emitted);
    }
  }

  /** The key a send uses is behind exactly if the lost writes make it stale. */
  lemma {:induction false} UsedIsBehindExactly(steps: seq<Step>, step: Step)
    requires Sound(After(steps)) && Accounts(steps) && step.SendStep?
    requires Ensure(After(steps).client, step.group).1.Some?
    ensures var s := After(steps);
            var key := Ensure(s.client, step.group).1.value;
            Behind(key.keyId, key.iteration, s.emitted) <==> Stale(steps + [step], step.group)
  {
    hide Latest, KeySound, MessagesSound, Distinct, Behind, After, LastLost, Apply;
    var s := After(steps);
    assert (steps + [step])[..|steps|] == steps;
    EnsureKeepsSound(s, step.group);
    LatestIsStored(s.client.rows, step.group);
    if Loads(s.client, step.group) {
      LoadedFacts(Latest(s.client.rows, step.group).value);
    } else {
      SoundIsValid(s, step.group);
    }
  }

  lemma {:induction false} EmissionAccounts(steps: seq<Step>, step: Step)
    requires Sound(After(steps)) && Accounts(steps) && Emits(After(steps), step) && !SendsBehind(After(steps), step)
    ensures Accounts(steps + [step])
  {
    hide Latest, MessagesSound, Distinct, Behind, After, Apply, MemorySound, RowsSound;
    hide Emits, EmitsUnder, LastLost, Stale;
    var s, more := After(steps), steps + [step];
    var t := After(more);
    OneMore(steps, step);
    LostOneMore(steps, step);
    StaleOneMore(steps, step);
    EmissionFacts(s, step);
    EmitsIsSend(s, step);
    UsedIsBehindExactly(steps, step);
    var key := Ensure(s.client, step.group).1.value;
    EnsureKeepsSound(s, step.group);
    KeysDiffer(s, step.group, key);
    var msg := t.emitted[|s.emitted|];
    assert t.emitted == s.emitted + [msg];
    forall row | row in t.client.rows && Usable(row)
      ensures Behind(row.keyId, row.iteration, t.emitted) <==> LastLost(more, row.keyId)
    {
      BehindOneMore(row.keyId, row.iteration, s.emitted, msg);
      if row.keyId == key.keyId && row.iteration == key.iteration + 1 {
        NotBehindFurther(key.keyId, key.iteration, s.emitted);
      }
    }
    forall g | g in t.client.memory
      ensures Behind(t.client.memory[g].keyId, t.client.memory[g].iteration, t.emitted) <==> Stale(more, g)
    {
      BehindOneMore(t.client.memory[g].keyId, t.client.memory[g].iteration, s.emitted, msg);
      NotBehindFurther(key.keyId, key.iteration, s.emitted);
    }
    assert key.keyId < |s.origins| by { SoundKeyIsKnown(key, step.group, s.origins, s.emitted); }
  }

  lemma EmitsIsSend(s: System, step: Step)
    requires Emits(s, step)
    ensures step.SendStep? && step.group > 0 && Ensure(s.client, step.group).1.Some?
    ensures SendsBehind(s, step) <==>
            var key := Ensure(s.client, step.group).1.value; Behind(key.keyId, key.iteration, s.emitted)
  {
  }

  lemma NotBehindFurther(keyId: nat, iteration: int, emitted: seq<EncryptedMessage>)
    ensures !Behind(keyId, iteration, emitted) ==> !Behind(keyId, iteration + 1, emitted)
  {
  }

  lemma SoundKeyIsKnown(key: SenderKey, group: int, origins: seq<int>, emitted: seq<EncryptedMessage>)
    requires KeySound(key, group, origins, emitted)
    ensures key.keyId < |origins|
  {
  }

  /** A send that emits nothing may still load a key. */
  lemma {:induction false} LoadAccounts(steps: seq<Step>, step: Step)
    requires Sound(After(steps)) && Accounts(steps) && step.SendStep? && !Emits(After(steps), step)
    ensures Accounts(steps + [step])
  {
    hide Latest, KeySound, MessagesSound, Distinct, Behind, After, LastLost, Stale;
    var s, more := After(steps), steps + [step];
    OneMore(steps, step);
    LostOneMore(steps, step);
    StaleOneMore(steps, step);
    EnsureKeepsSound(s, step.group);
    if Ensure(s.client, step.group).1.Some? {
      UsedIsBehindExactly(steps, step);
    } else {
      NothingToLoad(s, step.group);
    }
  }

  lemma NothingToLoad(s: System, group: int)
    requires Sound(s) && Ensure(s.client, group).1.None?
    ensures !Loads(s.client, group)
  {
  }

  lemma {:induction false} RotateAccounts(steps: seq<Step>, step: Step)
    requires Sound(After(steps)) && Accounts(steps) && step.RotateStep?
    ensures Accounts(steps + [step])
  {
    hide Latest, MemorySound, RowsSound, MessagesSound, Distinct, Behind, After, LastLost, Stale;
    var s, more := After(steps), steps + [step];
    OneMore(steps, step);
    LostOneMore(steps, step);
    StaleOneMore(steps, step);
    NewKeyIsNotBehind(s);
    var id := |s.origins|;
    WithoutKeeps(s.client.rows, step.group, id);
  }

  lemma NewKeyIsNotBehind(s: System)
    requires Sound(s)
    ensures forall i :: !Behind(|s.origins|, i, s.emitted)
  {
    assert forall k | 0 <= k < |s.emitted| :: MessageSound(s.emitted[k], s.origins, s.emitted);
  }

  lemma OtherStepAccounts(steps: seq<Step>, step: Step)
    requires Accounts(steps) && !step.SendStep? && !step.RotateStep?
    ensures Accounts(steps + [step])
  {
    hide Latest, Behind, After, Without, WithoutGroup, LastLost, Stale;
    var s, more := After(steps), steps + [step];
    OneMore(steps, step);
    LostOneMore(steps, step);
    StaleOneMore(steps, step);
    if step.ReceiveStep? {
      WithoutKeeps(s.client.rows, step.group, step.keyId);
    } else if step.LeaveStep? {
      WithoutGroupKeeps(s.client.rows, step.group);
    }
  }

  lemma {:induction false} RunAccounts(steps: seq<Step>)
    requires NeverSendsBehind(steps)
    ensures Accounts(steps)
  {
    hide Sound, Apply, SendsBehind, Emits, Accounts, After;
    if steps != [] {
      var init, last := steps[..|steps| - 1], steps[|steps| - 1];
      assert steps == init + [last];
      NeverSendsBefore(steps, |init|);
      RunAccounts(init);
      RunIsSound(init);
      assert !SendsBehind(After(init), last);
      if Emits(After(init), last) {
        EmissionAccounts(init, last);
      } else if last.SendStep? {
        LoadAccounts(init, last);
      } else if last.RotateStep? {
        RotateAccounts(init, last);
      } else {
        OtherStepAccounts(init, last);
      }
    } else {
      NothingToAccount();
    }
  }

  lemma NothingToAccount()
    ensures Accounts([])
  {
  }

  /**
   * As long as nothing has been repeated, a stored key is behind what was sent under it if and
   * only if the last message sent under it lost its write.
   */
  lemma {:induction false} BehindExactlyWhenLost(steps: seq<Step>, row: Row)
    requires NeverSendsBehind(steps) && row in After(steps).client.rows && Usable(row)
    ensures Behind(row.keyId, row.iteration, After(steps).emitted) <==> LastLost(steps, row.keyId)
  {
    RunAccounts(steps);
  }

  /** Sending under a key that is behind is sending under one that is stale. */
  lemma {:induction false} SendsBehindExactly(steps: seq<Step>, k: nat)
    requires k < |steps| && NeverSendsBehind(steps[..k])
    ensures SendsBehind(After(steps[..k]), steps[k]) <==> SendsStale(steps, k)
  {
    hide After, Accounts, Sound, Emits, Stale;
    var s := After(steps[..k]);
    assert steps[..k + 1] == steps[..k] + [steps[k]];
    if Emits(s, steps[k]) {
      RunAccounts(steps[..k]);
      RunIsSound(steps[..k]);
      EmitsIsSend(s, steps[k]);
      UsedIsBehindExactly(steps[..k], steps[k]);
    }
  }

  /**
   * Over every run, whichever writes are lost, an iteration of a key is emitted twice if and
   * only if a message is sent under a key that was loaded, after a restart or a removal, when
   * the last message sent under it had lost its write.
   */
  lemma {:induction false} RepeatsExactly(steps: seq<Step>)
    ensures (exists i, j :: Repeated(After(steps).emitted, i, j)) <==> exists k :: SendsStale(steps, k)
  {
    hide After, SendsStale, SendsBehind, Repeated;
    RepeatsWhenBehind(steps);
    if NeverSendsBehind(steps) {
      forall k
        ensures !SendsStale(steps, k)
      {
        if 0 <= k < |steps| {
          NeverSendsBefore(steps, k);
          SendsBehindExactly(steps, k);
        } else {
          OnlyStepsSend(steps, k);
        }
      }
    } else {
      var k := FirstBehind(steps);
      SendsBehindExactly(steps, k);
      assert SendsStale(steps, k);
    }
  }

  lemma OnlyStepsSend(steps: seq<Step>, k: int)
    ensures SendsStale(steps, k) ==> 0 <= k < |steps|
  {
  }

  lemma {:induction false} FirstBehind(steps: seq<Step>) returns (k: nat)
    requires !NeverSendsBehind(steps)
    ensures k < |steps| && NeverSendsBehind(steps[..k]) && SendsBehind(After(steps[..k]), steps[k])
    decreases |steps|
  {
    hide After, SendsBehind;
    k :| 0 <= k < |steps| && SendsBehind(After(steps[..k]), steps[k]);
    if !NeverSendsBehind(steps[..k]) {
      var j := FirstBehind(steps[..k]);
      assert steps[..k][..j] == steps[..j] && steps[..k][j] == steps[j];
      k := j;
    }
  }

  lemma {:induction false} ChainsDiffer(a: nat, b: nat, i: nat)
    requires ChainAt(a, i) == ChainAt(b, i)
    ensures a == b
  {
    if i > 0 {
      ChainsDiffer(a, b, i - 1);
    }
  }

  /** Every send's write reaches the table; rotations may lose theirs. */
  predicate AllSendsWritten(steps: seq<Step>) {
    forall k | 0 <= k < |steps| && steps[k].SendStep? :: steps[k].written
  }

  lemma {:induction false} WrittenIsNeverStale(steps: seq<Step>)
    requires AllSendsWritten(steps)
    ensures forall id: nat :: !LastLost(steps, id)
    ensures forall g :: !Stale(steps, g)
  {
    hide After, EncryptGroup, LastLost, Stale;
    if steps != [] {
      var init, last := steps[..|steps| - 1], steps[|steps| - 1];
      WrittenIsNeverStale(init);
      assert steps == init + [last];
      LostOneMore(init, last);
      StaleOneMore(init, last);
      forall g
        ensures !Stale(init + [last], g)
      {
        assert !Stale(init, g);
      }
    } else {
      NothingStale();
    }
  }

  lemma NothingStale()
    ensures forall id: nat :: !LastLost([], id)
    ensures forall g :: !Stale([], g)
  {
  }

  lemma StaleSendIsStale(steps: seq<Step>, k: int)
    ensures SendsStale(steps, k) ==> 0 <= k < |steps| && Stale(steps[..k + 1], steps[k].group)
  {
  }

  /** No message is sent under a stale key, so nothing is sent under one that is behind. */
  lemma {:induction false} NoStaleNoBehind(steps: seq<Step>)
    requires forall k :: !SendsStale(steps, k)
    ensures NeverSendsBehind(steps)
  {
    hide SendsStale;
    RepeatsExactly(steps);
    RepeatsWhenBehind(steps);
  }

  lemma SoundMessagesDiffer(s: System, i: nat, j: nat)
    requires Sound(s) && i < j < |s.emitted|
    ensures var m, n := s.emitted[i], s.emitted[j];
            && (m.keyId != n.keyId || m.iteration != n.iteration)
            && m.ciphertext.Gcm? && n.ciphertext.Gcm?
            && m.ciphertext.key != n.ciphertext.key
  {
    EmittedFacts(s, i, j);
    hide Sound;
    var m, n := s.emitted[i], s.emitted[j];
    if m.iteration == n.iteration && m.ciphertext.key == n.ciphertext.key {
      ChainsDiffer(m.keyId, n.keyId, m.iteration);
    }
  }

  /**
   * If every send's write succeeds, then over any run of sends, rotations, restarts and own
   * distributions coming back no two emitted messages share a key id and an iteration, and so
   * no message key ever seals two messages.
   */
  lemma {:induction false} NoIterationEmittedTwice(steps: seq<Step>, i: nat, j: nat)
    requires AllSendsWritten(steps)
    requires i < j < |After(steps).emitted|
    ensures var m, n := After(steps).emitted[i], After(steps).emitted[j];
            && (m.keyId != n.keyId || m.iteration != n.iteration)
            && m.ciphertext.Gcm? && n.ciphertext.Gcm?
            && m.ciphertext.key != n.ciphertext.key
  {
    hide After, Stale, SendsStale;
    forall k
      ensures !SendsStale(steps, k)
    {
      StaleSendIsStale(steps, k);
      if 0 <= k < |steps| {
        WrittenIsNeverStale(steps[..k + 1]);
      }
    }
    NoStaleNoBehind(steps);
    RunIsSound(steps);
    SoundMessagesDiffer(After(steps), i, j);
  }

  /** The store never opened: nothing is ever written to it. */
  predicate NothingWritten(steps: seq<Step>) {
    forall k | 0 <= k < |steps| ::
      match steps[k]
      case SendStep(_, _, _, written) => !written
      case RotateStep(_, written) => !written
      case ReceiveStep(_, _, _, _, _) => false
      case ForgetStep => true
      case RemovedStep(_) => true
      case LeaveStep(_) => true
  }

  lemma {:induction false} NothingStored(steps: seq<Step>)
    requires NothingWritten(steps)
    ensures After(steps).client.rows == []
    ensures forall g :: !Stale(steps, g)
  {
    hide Encrypt;
    if steps != [] {
      NothingStored(steps[..|steps| - 1]);
    }
  }

  /** Then nothing is ever loaded, and nothing repeats either. */
  lemma {:induction false} UnopenedStoreNeverRepeats(steps: seq<Step>, i: nat, j: nat)
    requires NothingWritten(steps)
    ensures !Repeated(After(steps).emitted, i, j)
  {
    hide After, Stale, SendsStale, Repeated;
    forall k
      ensures !SendsStale(steps, k)
    {
      StaleSendIsStale(steps, k);
      if 0 <= k < |steps| {
        NothingStored(steps[..k + 1]);
      }
    }
    RepeatsExactly(steps);
  }

  lemma EmittedFacts(s: System, i: nat, j: nat)
    requires Sound(s) && i < j < |s.emitted|
    ensures MessageSound(s.emitted[i], s.origins, s.emitted) && MessageSound(s.emitted[j], s.origins, s.emitted)
    ensures s.emitted[i].keyId == s.emitted[j].keyId ==> s.emitted[i].iteration != s.emitted[j].iteration
  {
  }

  // ---------------------------------------------------------------- groups do not disturb each other

  /** Whether the step is about this group; losing memory is about every group. */
  predicate Concerns(step: Step, group: int) {
    step.ForgetStep? || step.group == group
  }

  /** The two clients send alike in this group, as they are and after a restart. */
  ghost predicate SendAlike(c: Client, d: Client, group: int) {
    && Ensure(d, group).1 == Ensure(c, group).1
    && Ensure(d.(memory := map[]), group).1 == Ensure(c.(memory := map[]), group).1
    && (forall row: Row | row.group == group :: row in d.rows <==> row in c.rows)
  }

  lemma {:induction false} StepLeavesOthers(s: System, step: Step, group: int)
    requires !Concerns(step, group)
    ensures SendAlike(s.client, Apply(s, step).client, group)
  {
    hide Latest, Save, WithoutGroup, Encrypt;
    var c := s.client;
    match step
    case SendStep(other, plaintext, iv, _) =>
      var (ensured, key) := Ensure(c, other);
      EnsureKeepsRows(c, other);
      if key.Some? {
        SaveReplacesOneRow(c.rows, RowOf(other, Encrypt(key.value, plaintext, iv).0));
      }
    case RotateStep(other, _) =>
      var id := |s.origins|;
      SaveReplacesOneRow(c.rows, RowOf(other, GenerateSenderKey(id, id, id)));
    case ReceiveStep(other, keyId, chainKey, publicSigningKey, iteration) =>
      SaveReplacesOneRow(c.rows, Row(other, keyId, chainKey, publicSigningKey, None, iteration));
    case RemovedStep(_) =>
    case LeaveStep(other) => WithoutGroupKeeps(c.rows, other);
  }

  /**
   * Whatever happens in other groups, sending, rotating, receiving, being removed and leaving,
   * the next message in this group goes out under the key it would have gone out under before,
   * with a restart in between and without, and every stored row of the group is still there.
   */
  lemma {:induction false} OtherGroupsDoNotDisturb(steps: seq<Step>, n: nat, group: int)
    requires n <= |steps| && forall k | n <= k < |steps| :: !Concerns(steps[k], group)
    ensures SendAlike(After(steps[..n]).client, After(steps).client, group)
    decreases |steps|
  {
    hide Apply, Ensure;
    if n < |steps| {
      var init := steps[..|steps| - 1];
      assert init[..n] == steps[..n];
      OtherGroupsDoNotDisturb(init, n, group);
      StepLeavesOthers(After(init), steps[|steps| - 1], group);
    } else {
      assert steps[..n] == steps;
    }
  }

  /** Leaving a group leaves no row of it and nothing to send with; removal takes what is in memory and no row. */
  lemma GoneFromGroup(s: System, group: int)
    ensures var left := Apply(s, LeaveStep(group)).client;
            (forall row: Row :: row in left.rows <==> row in s.client.rows && row.group != group)
            && Ensure(left, group).1 == None
    ensures var removed := Apply(s, RemovedStep(group)).client;
            removed.rows == s.client.rows
            && Ensure(removed, group).1 == Ensure(s.client.(memory := map[]), group).1
  {
    hide Latest;
    WithoutGroupKeeps(s.client.rows, group);
    LatestIsStored(WithoutGroup(s.client.rows, group), group);
  }

  // ---------------------------------------------------------------- what a restart brings back

  /** After a restart there is a key to send with if and only if the group's latest row is complete. */
  lemma RestartLoadsExactly(c: Client, group: int)
    ensures var key := Ensure(c.(memory := map[]), group).1;
            var latest := Latest(c.rows, group);
            && (key.Some? <==>
                  && group > 0 && latest.Some?
                  && latest.value.chainKey.Some? && latest.value.publicSigningKey.Some?
                  && latest.value.privateSigningKey.Some?)
            && (key.Some? ==> key.value.valid && RowOf(group, key.value) == latest.value)
  {
    LatestIsStored(c.rows, group);
  }

  /** A restart after a written send goes on with the very key the send left in memory. */
  lemma RestartAfterSendGoesOn(s: System, group: int, plaintext: string, iv: Option<nat>)
    requires Sound(s) && EncryptGroup(s.client, group, plaintext, iv, true).1.Some?
    ensures var c := EncryptGroup(s.client, group, plaintext, iv, true).0;
            && group in c.memory
            && Ensure(c.(memory := map[]), group).1 == Some(c.memory[group])
  {
    hide Save, Latest;
    EnsureKeepsSound(s, group);
    var (ensured, key) := Ensure(s.client, group);
    SteppedIsSound(key.value, group, s.origins, s.emitted, plaintext, iv);
    SavedIsLatest(ensured.rows, RowOf(group, Encrypt(key.value, plaintext, iv).0));
  }

  /** A restart after the receiving side wrote one of our rows leaves nothing to send with until the next rotation. */
  lemma RestartAfterReceiveCannotSend(c: Client, group: int, keyId: nat, chainKey: Option<ChainKey>,
                                      publicSigningKey: Option<nat>, iteration: int)
    ensures var rows := Save(c.rows, Row(group, keyId, chainKey, publicSigningKey, None, iteration));
            Ensure(Client(map[], rows), group).1 == None
  {
    SavedIsLatest(c.rows, Row(group, keyId, chainKey, publicSigningKey, None, iteration));
  }

  datatype Plain = Plain(text: string, iv: Option<nat>)

  function Lost(group: int, plain: Plain): Step {
    SendStep(group, plain.text, plain.iv, false)
  }

  function Again(group: int, plain: Plain): Step {
    SendStep(group, plain.text, plain.iv, true)
  }

  lemma {:induction false} OneMore(steps: seq<Step>, step: Step)
    ensures After(steps + [step]) == Apply(After(steps), step)
    ensures NeverSendsBehind(steps + [step]) <==> NeverSendsBehind(steps) && !SendsBehind(After(steps), step)
  {
    hide Apply, SendsBehind;
    var more := steps + [step];
    assert more[..|steps|] == steps && more[|steps|] == step;
    assert forall k | 0 <= k < |steps| :: more[..k] == steps[..k] && more[k] == steps[k];
  }

  /** The key for the next message in this group is stale, or would be loaded although its last write was lost. */
  predicate SendsFromLost(steps: seq<Step>, group: int) {
    var c := After(steps).client;
    if Loads(c, group) then LastLost(steps, Latest(c.rows, group).value.keyId) else Stale(steps, group)
  }

  lemma {:induction false} SendsFromLostIsStale(steps: seq<Step>, step: Step)
    requires step.SendStep?
    ensures SendsStale(steps + [step], |steps|) <==> Emits(After(steps), step) && SendsFromLost(steps, step.group)
  {
    hide After, Emits, LastLost, Stale, Loads, Latest;
    var more := steps + [step];
    assert more[..|steps|] == steps && more[..|steps| + 1] == more;
    StaleOneMore(steps, step);
  }

  /**
   * So a client that has not repeated anything yet can tell from its writes: its next message
   * repeats an iteration if and only if it is sent from what a lost write left behind.
   */
  lemma {:induction false} NextSendRepeatsExactly(steps: seq<Step>, step: Step)
    requires (forall k :: !SendsStale(steps, k)) && Emits(After(steps), step)
    ensures (exists i, j :: Repeated(After(steps + [step]).emitted, i, j)) <==> SendsFromLost(steps, step.group)
  {
    hide After, Sound, Emits, SendsFromLost, SendsStale, SendsBehind, Repeated;
    EmitsIsSend(After(steps), step);
    NoStaleNoBehind(steps);
    OneMore(steps, step);
    RepeatsWhenBehind(steps + [step]);
    assert (steps + [step])[..|steps|] == steps;
    SendsBehindExactly(steps + [step], |steps|);
    SendsFromLostIsStale(steps, step);
  }

  lemma {:induction false} NextIsNotBehind(steps: seq<Step>, step: Step)
    requires NeverSendsBehind(steps) && (Emits(After(steps), step) ==> !SendsFromLost(steps, step.group))
    ensures NeverSendsBehind(steps + [step])
  {
    hide After, Emits, SendsFromLost, SendsStale, SendsBehind;
    OneMore(steps, step);
    assert (steps + [step])[..|steps|] == steps;
    if Emits(After(steps), step) {
      EmitsIsSend(After(steps), step);
      SendsBehindExactly(steps + [step], |steps|);
      SendsFromLostIsStale(steps, step);
    } else {
      OnlyEmissionsSend(After(steps), step);
    }
  }

  lemma OnlyEmissionsSend(s: System, step: Step)
    requires !Emits(s, step)
    ensures !SendsBehind(s, step)
  {
  }

  /** The key a send in this group would use is the one in the group's latest, usable row. */
  predicate SendsFromLatestRow(c: Client, group: int) {
    var key := Ensure(c, group).1;
    key.Some? && HasUsable(c.rows, group) && Latest(c.rows, group).value.keyId == key.value.keyId
  }

  /** Nothing repeated, and no lost write to make good in this group. */
  ghost predicate InOrder(steps: seq<Step>, group: int) {
    && (forall k :: !SendsStale(steps, k))
    && !SendsFromLost(steps, group)
    && (HasUsable(After(steps).client.rows, group) ==>
          !LastLost(steps, Latest(After(steps).client.rows, group).value.keyId))
  }

  /** Once memory is lost, the next message is sent from what a lost write left exactly if the latest row is that. */
  lemma ForgottenSendsFromLost(steps: seq<Step>, group: int)
    requires group > 0
    ensures var rows := After(steps).client.rows;
            SendsFromLost(steps + [ForgetStep], group) <==>
              HasUsable(rows, group) && LastLost(steps, Latest(rows, group).value.keyId)
    ensures After(steps + [ForgetStep]).client.rows == After(steps).client.rows
    ensures After(steps + [ForgetStep]).client.memory == map[]
  {
    hide After, LastLost, Latest, Stale, Emits;
    OneMore(steps, ForgetStep);
    LostOneMore(steps, ForgetStep);
    StaleOneMore(steps, ForgetStep);
    OnlySendsEmit(After(steps), ForgetStep);
  }

  lemma OnlySendsEmit(s: System, step: Step)
    requires !step.SendStep?
    ensures !Emits(s, step)
  {
  }

  /** A lost write leaves the rows, and is remembered against the key sent with and no other. */
  lemma {:induction false} LostIsRemembered(steps: seq<Step>, group: int, first: Plain)
    requires NeverSendsBehind(steps) && !SendsFromLost(steps, group) && Emits(After(steps), Lost(group, first))
    ensures var sent := steps + [Lost(group, first)];
            var key := Ensure(After(steps).client, group).1.value;
            && NeverSendsBehind(sent)
            && After(sent).client.rows == After(steps).client.rows
            && (forall id: nat :: LastLost(sent, id) <==> id == key.keyId || LastLost(steps, id))
  {
    hide After, LastLost, Latest, Stale, Emits, EmitsUnder, Sound, Encrypt, SendsFromLost, SendsBehind;
    var s := After(steps);
    NextIsNotBehind(steps, Lost(group, first));
    OneMore(steps, Lost(group, first));
    LostOneMore(steps, Lost(group, first));
    RunIsSound(steps);
    EmissionFacts(s, Lost(group, first));
    EnsureKeepsRows(s.client, group);
  }

  lemma EnsureKeepsRows(c: Client, group: int)
    ensures Ensure(c, group).0.rows == c.rows
  {
  }

  /**
   * What a lost write does.  With everything in order, let a message go out whose write is
   * lost, then restart and send again: an iteration goes out twice if and only if the group's
   * latest row was a usable one of the key that was sent with.
   */
  lemma {:induction false} LostWriteRepeatsExactly(steps: seq<Step>, group: int, first: Plain, second: Plain)
    requires InOrder(steps, group) && Emits(After(steps), Lost(group, first))
    requires second.text != "" && second.iv.Some?
    ensures var more := steps + [Lost(group, first), ForgetStep, Again(group, second)];
            SendsFromLatestRow(After(steps).client, group) <==> exists i, j :: Repeated(After(more).emitted, i, j)
  {
    hide After, LastLost, Latest, Stale, Emits, Sound, Encrypt, SendsFromLost, SendsStale, SendsBehind, Repeated;
    hide NeverSendsBehind, Ensure;
    var sent := steps + [Lost(group, first)];
    var forgot := sent + [ForgetStep];
    var more := forgot + [Again(group, second)];
    assert more == steps + [Lost(group, first), ForgetStep, Again(group, second)];
    NoStaleNoBehind(steps);
    EmitsIsSend(After(steps), Lost(group, first));
    LostIsRemembered(steps, group, first);
    ForgottenSendsFromLost(sent, group);
    ForgetIsNotBehind(sent);
    RunIsSound(forgot);
    LoadedEmits(After(forgot), group, second);
    BehindMeansStale(forgot);
    if Emits(After(forgot), Again(group, second)) {
      NextSendRepeatsExactly(forgot, Again(group, second));
    } else {
      NextIsNotBehind(forgot, Again(group, second));
      RepeatsWhenBehind(more);
    }
  }

  lemma {:induction false} ForgetIsNotBehind(steps: seq<Step>)
    requires NeverSendsBehind(steps)
    ensures NeverSendsBehind(steps + [ForgetStep])
  {
    hide After, SendsFromLost;
    OnlySendsEmit(After(steps), ForgetStep);
    NextIsNotBehind(steps, ForgetStep);
  }

  lemma BehindMeansStale(steps: seq<Step>)
    requires NeverSendsBehind(steps)
    ensures forall k :: !SendsStale(steps, k)
  {
    hide SendsStale;
    RepeatsExactly(steps);
    RepeatsWhenBehind(steps);
  }

  /** With nothing in memory a send goes out exactly if there is a usable row to load. */
  lemma LoadedEmits(s: System, group: int, plain: Plain)
    requires Sound(s) && s.client.memory == map[] && group > 0 && plain.text != "" && plain.iv.Some?
    ensures Emits(s, Again(group, plain)) <==> HasUsable(s.client.rows, group)
  {
    hide Latest, MemorySound, MessagesSound, Distinct;
    LatestIsStored(s.client.rows, group);
    if HasUsable(s.client.rows, group) {
      var row := Latest(s.client.rows, group).value;
      assert KeySound(Loaded(row), row.group, s.origins, s.emitted);
    }
  }

  /** A write that a later send makes good does no harm. */
  lemma {:induction false} MadeGoodDoesNotRepeat(steps: seq<Step>, group: int, first: Plain, second: Plain,
                                                 third: Plain)
    requires InOrder(steps, group) && Emits(After(steps), Lost(group, first))
    requires Emits(After(steps + [Lost(group, first)]), Again(group, second))
    ensures var more := steps + [Lost(group, first), Again(group, second), ForgetStep, Again(group, third)];
            forall i, j :: !Repeated(After(more).emitted, i, j)
  {
    hide After, LastLost, Latest, Stale, Emits, Sound, Encrypt, SendsFromLost, SendsStale, SendsBehind, Repeated;
    hide NeverSendsBehind, Ensure;
    var lost := steps + [Lost(group, first)];
    var good := lost + [Again(group, second)];
    var forgot := good + [ForgetStep];
    var more := forgot + [Again(group, third)];
    assert more == steps + [Lost(group, first), Again(group, second), ForgetStep, Again(group, third)];
    NoStaleNoBehind(steps);
    EmitsIsSend(After(steps), Lost(group, first));
    LostIsRemembered(steps, group, first);
    LostStaysInMemory(steps, group, first);
    NextIsNotBehind(lost, Again(group, second));
    WrittenIsNotLost(lost, group, second);
    ForgottenSendsFromLost(good, group);
    ForgetIsNotBehind(good);
    NextIsNotBehind(forgot, Again(group, third));
    RepeatsWhenBehind(more);
  }

  /** After a message the key is in memory, and not stale. */
  lemma LostStaysInMemory(steps: seq<Step>, group: int, first: Plain)
    requires NeverSendsBehind(steps) && !SendsFromLost(steps, group) && Emits(After(steps), Lost(group, first))
    ensures !SendsFromLost(steps + [Lost(group, first)], group)
  {
    hide After, LastLost, Latest, Emits, Sound, Encrypt, SendsBehind;
    var sent := steps + [Lost(group, first)];
    EmitsIsSend(After(steps), Lost(group, first));
    LostIsRemembered(steps, group, first);
    RunIsSound(sent);
    RunIsSound(steps);
    StaleOneMore(steps, Lost(group, first));
    NextIsNotBehind(steps, Lost(group, first));
    OneMore(steps, Lost(group, first));
    EmissionFacts(After(steps), Lost(group, first));
    ValidInMemory(After(sent), group);
  }

  lemma ValidInMemory(s: System, group: int)
    requires Sound(s) && group in s.client.memory
    ensures s.client.memory[group].valid
  {
  }

  /** After a written message the latest row is one of the key sent with, whose last write was not lost. */
  lemma WrittenIsNotLost(steps: seq<Step>, group: int, plain: Plain)
    requires Emits(After(steps), Again(group, plain))
    ensures var rows := After(steps + [Again(group, plain)]).client.rows;
            HasUsable(rows, group) ==> !LastLost(steps + [Again(group, plain)], Latest(rows, group).value.keyId)
  {
    hide After, LastLost, Save, Latest;
    OneMore(steps, Again(group, plain));
    LostOneMore(steps, Again(group, plain));
    var s := After(steps);
    var (ensured, key) := Ensure(s.client, group);
    SavedIsLatest(ensured.rows, RowOf(group, Encrypt(key.value, plain.text, plain.iv).0));
  }

  /** It can come to a repeat in any group: a fresh key is one written and sent with. */
  lemma {:induction false} LostWriteRepeatsIteration(steps: seq<Step>, group: int, first: Plain, second: Plain)
    requires (forall k :: !SendsStale(steps, k)) && group > 0
    requires first.text != "" && first.iv.Some? && second.text != "" && second.iv.Some?
    ensures var more := steps + [RotateStep(group, true), Lost(group, first), ForgetStep, Again(group, second)];
            exists i, j :: Repeated(After(more).emitted, i, j)
  {
    hide Save, Latest, After, Sound, LastLost, Stale, SendsStale, SendsBehind, SendsFromLost;
    var rotate := RotateStep(group, true);
    var rotated := steps + [rotate];
    NoStaleNoBehind(steps);
    RotatedIsInOrder(steps, group);
    OneMore(steps, rotate);
    var id := |After(steps).origins|;
    SavedIsLatest(After(steps).client.rows, RowOf(group, GenerateSenderKey(id, id, id)));
    LostWriteRepeatsExactly(rotated, group, first, second);
    assert rotated + [Lost(group, first), ForgetStep, Again(group, second)]
        == steps + [rotate, Lost(group, first), ForgetStep, Again(group, second)];
  }

  lemma {:induction false} RotatedIsInOrder(steps: seq<Step>, group: int)
    requires NeverSendsBehind(steps) && group > 0
    ensures InOrder(steps + [RotateStep(group, true)], group)
  {
    hide Save, Latest, After, Sound, LastLost, Stale, SendsStale, SendsBehind, Emits;
    var rotate := RotateStep(group, true);
    var rotated := steps + [rotate];
    OnlySendsEmit(After(steps), rotate);
    NextIsNotBehind(steps, rotate);
    BehindMeansStale(rotated);
    OneMore(steps, rotate);
    StaleOneMore(steps, rotate);
    LostOneMore(steps, rotate);
    RunAccounts(steps);
    var id := |After(steps).origins|;
    SavedIsLatest(After(steps).client.rows, RowOf(group, GenerateSenderKey(id, id, id)));
  }
}
