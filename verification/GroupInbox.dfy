/**
 * Reading group messages through the client's store: the receiver state of every sender key
 * is loaded from two tables before a message is decrypted and written back after.
 */
module GroupInbox {
  import opened Wrappers
  import opened SymbolicCrypto
  import opened GroupE2eeCrypto
  import opened GroupDelivery

  const MAX_MESSAGE_ITERATION := 100000000

  /** The address of a sender key. */
  datatype Channel = Channel(group: int, sender: int, device: string, keyId: nat)

  datatype KeyRow = KeyRow(chainKey: Option<ChainKey>, publicSigningKey: Option<nat>, iteration: int)

  /** The sender keys, and the skipped message keys of those that have any. */
  datatype Store = Store(keys: map<Channel, KeyRow>, skipped: map<Channel, map<int, MessageKey>>)

  /** The fields as decoded; a message out of bounds is marked not valid. */
  function Decode(msg: EncryptedMessage): EncryptedMessage {
    msg.(valid :=
      && 0 < msg.iteration <= MAX_MESSAGE_ITERATION
      && msg.iv.size == GCM_IV_SIZE
      && msg.ciphertext.Size() >= GCM_TAG_SIZE
      && msg.signature.Size() == ED25519_SIGNATURE_SIZE)
  }

  /** Loading drops entries under an iteration that cannot be. */
  function LoadSkipped(s: Store, c: Channel): map<int, MessageKey> {
    if c in s.skipped then map i | i in s.skipped[c] && i > 0 :: s.skipped[c][i] else map[]
  }

  function SaveSkipped(s: Store, c: Channel, keys: map<int, MessageKey>): Store {
    s.(skipped := if keys == map[] then s.skipped - {c} else s.skipped[c := keys])
  }

  predicate Loads(s: Store, c: Channel) {
    c in s.keys && s.keys[c].chainKey.Some? && s.keys[c].publicSigningKey.Some?
  }

  /** The receiver state the tables hold for a sender key. */
  function Stored(s: Store, c: Channel): Receiver
    requires c in s.keys
  {
    Receiver(s.keys[c].chainKey, s.keys[c].iteration, LoadSkipped(s, c))
  }

  /** A distribution message sets the sender key to its seed; the skipped keys are left alone. */
  function Install(s: Store, c: Channel, chainKey: ChainKey, publicSigningKey: nat): Store {
    s.(keys := s.keys[c := KeyRow(Some(chainKey), Some(publicSigningKey), 0)])
  }

  /** Sending a message of our own writes the stepped key into its row; the skipped keys are left alone. */
  function SaveSent(s: Store, c: Channel, chainKey: ChainKey, publicSigningKey: nat, iteration: int): Store {
    s.(keys := s.keys[c := KeyRow(Some(chainKey), Some(publicSigningKey), iteration)])
  }

  /** Leaving a group deletes everything about its keys. */
  function LeaveGroup(s: Store, group: int): Store {
    Store(map c | c in s.keys && c.group != group :: s.keys[c],
          map c | c in s.skipped && c.group != group :: s.skipped[c])
  }

  /** One group message: the store after it, and its plaintext, "" if it cannot be decrypted. */
  ghost function Receive(s: Store, c: Channel, msg: EncryptedMessage): (Store, string) {
    if !Decode(msg).valid || !Loads(s, c) then (s, "")
    else
      var (after, plaintext) := Decrypt(Stored(s, c), s.keys[c].publicSigningKey, Decode(msg), true);
      if plaintext == "" then (s, "")
      else
        var saved := s.(keys := s.keys[c := KeyRow(after.chainKey, s.keys[c].publicSigningKey, after.iteration)]);
        (if after.skipped != map[] || LoadSkipped(s, c) != map[] then SaveSkipped(saved, c, after.skipped) else saved,
         plaintext)
  }

  class Inbox {
    var keys: map<Channel, KeyRow>
    var skipped: map<Channel, map<int, MessageKey>>

    ghost function Tables(): Store
      reads this
    {
      Store(keys, skipped)
    }

    constructor ()
      ensures Tables() == Store(map[], map[])
    {
      keys, skipped := map[], map[];
    }

    method InstallSenderKey(c: Channel, chainKey: ChainKey, publicSigningKey: nat)
      modifies this
      ensures Tables() == Install(old(Tables()), c, chainKey, publicSigningKey)
    {
      keys := keys[c := KeyRow(Some(chainKey), Some(publicSigningKey), 0)];
    }

    method SaveSentKey(c: Channel, chainKey: ChainKey, publicSigningKey: nat, iteration: int)
      modifies this
      ensures Tables() == SaveSent(old(Tables()), c, chainKey, publicSigningKey, iteration)
    {
      keys := keys[c := KeyRow(Some(chainKey), Some(publicSigningKey), iteration)];
    }

    method RemoveSenderKeysForGroup(group: int)
      modifies this
      ensures Tables() == LeaveGroup(old(Tables()), group)
    {
      keys := map c | c in keys && c.group != group :: keys[c];
      skipped := map c | c in skipped && c.group != group :: skipped[c];
    }

    method DecryptGroupMessage(c: Channel, msg: EncryptedMessage) returns (plaintext: string)
      modifies this
      ensures (Tables(), plaintext) == Receive(old(Tables()), c, msg)
    {
      hide Decrypt;
      var decoded := Decode(msg);
      if !decoded.valid {
        return "";
      }
      if c !in keys || keys[c].chainKey.None? || keys[c].publicSigningKey.None? {
        return "";
      }
      var loaded := if c in skipped then map i | i in skipped[c] && i > 0 :: skipped[c][i] else map[];
      var hadSkippedKeys := loaded != map[];
      var receiver := new GroupReceiver(keys[c].chainKey, keys[c].iteration, loaded);
      plaintext := receiver.DecryptMessage(keys[c].publicSigningKey, decoded, true);
      if plaintext == "" {
        return;
      }
      keys := keys[c := KeyRow(receiver.chainKey, keys[c].publicSigningKey, receiver.iteration)];
      if receiver.skippedKeys != map[] || hadSkippedKeys {
        if receiver.skippedKeys == map[] {
          skipped := skipped - {c};
        } else {
          skipped := skipped[c := receiver.skippedKeys];
        }
      }
    }
  }

  // ---------------------------------------------------------------- runs

  datatype Step =
    /** A distribution message is processed. */
    | InstallStep(channel: Channel, origin: Origin)
    /** A group message arrives. */
    | MessageStep(channel: Channel, msg: EncryptedMessage)
    /** This device sends under a key of its own, which now is at `iteration`. */
    | SendStep(channel: Channel, origin: Origin, iteration: nat)
    /** This user leaves the group. */
    | LeaveStep(group: int)

  ghost function Apply(s: Store, step: Step): Store {
    match step
    case InstallStep(c, o) => Install(s, c, Seed(o.seed), o.signer)
    case MessageStep(c, msg) => Receive(s, c, msg).0
    case SendStep(c, o, iteration) => SaveSent(s, c, ChainAt(o, iteration), o.signer, iteration)
    case LeaveStep(group) => LeaveGroup(s, group)
  }

  ghost function After(steps: seq<Step>): Store {
    if steps == [] then Store(map[], map[]) else Apply(After(steps[..|steps| - 1]), steps[|steps| - 1])
  }

  /** What each step puts on the screen, "" for nothing. */
  ghost function Shown(steps: seq<Step>): (texts: seq<string>)
    ensures |texts| == |steps|
  {
    if steps == [] then []
    else
      var init, last := steps[..|steps| - 1], steps[|steps| - 1];
      Shown(init) + [if last.MessageStep? then Receive(After(init), last.channel, last.msg).1 else ""]
  }

  /** Step `k` is a message of the channel that could be read. */
  ghost predicate Read(steps: seq<Step>, c: Channel, k: int) {
    0 <= k < |steps| && steps[k].MessageStep? && steps[k].channel == c && Shown(steps)[k] != ""
  }

  /** Nothing has been read on the channel yet. */
  ghost predicate Unread(steps: seq<Step>, c: Channel) {
    forall k :: !Read(steps, c, k)
  }

  /**
   * What may come next for the channel: its key is the one of `o`, it is installed only while
   * nothing has been read under it, and this device's own sends only move it forward.
   */
  ghost predicate Allowed(before: seq<Step>, c: Channel, o: Origin, step: Step) {
    match step
    case InstallStep(d, p) => d == c ==> p == o && Unread(before, c)
    case SendStep(d, p, iteration) =>
      d == c ==>
        && p == o
        && if c in After(before).keys then After(before).keys[c].iteration < iteration else Unread(before, c)
    case MessageStep(_, _) => true
    case LeaveStep(_) => true
  }

  ghost predicate Regular(steps: seq<Step>, c: Channel, o: Origin) {
    steps == []
    || (Regular(steps[..|steps| - 1], c, o) && Allowed(steps[..|steps| - 1], c, o, steps[|steps| - 1]))
  }

  /** The channel is another device's: nothing is sent on it from here. */
  predicate OfAnotherDevice(steps: seq<Step>, c: Channel) {
    forall k | 0 <= k < |steps| :: !(steps[k].SendStep? && steps[k].channel == c)
  }

  lemma {:induction false} RegularBefore(steps: seq<Step>, c: Channel, o: Origin, n: nat)
    requires n <= |steps| && Regular(steps, c, o)
    ensures Regular(steps[..n], c, o)
    ensures n < |steps| ==> Allowed(steps[..n], c, o, steps[n])
  {
    hide Allowed;
    if n < |steps| {
      var init := steps[..|steps| - 1];
      if n < |steps| - 1 {
        RegularBefore(init, c, o, n);
        assert init[..n] == steps[..n] && init[n] == steps[n];
      }
    } else {
      assert steps[..n] == steps;
    }
  }

  lemma {:induction false} ShownBefore(steps: seq<Step>, n: nat)
    requires n <= |steps|
    ensures Shown(steps[..n]) == Shown(steps)[..n]
  {
    hide Receive, After;
    if n < |steps| {
      ShownBefore(steps[..|steps| - 1], n);
      assert steps[..|steps| - 1][..n] == steps[..n];
    } else {
      assert steps[..n] == steps;
    }
  }

  lemma {:induction false} ShownAt(steps: seq<Step>, k: nat)
    requires k < |steps|
    ensures Shown(steps)[k] ==
            if steps[k].MessageStep? then Receive(After(steps[..k]), steps[k].channel, steps[k].msg).1 else ""
  {
    hide Receive, After;
    ShownBefore(steps, k + 1);
    assert steps[..k + 1][..k] == steps[..k];
  }

  lemma ReadBefore(steps: seq<Step>, c: Channel, n: nat)
    requires n <= |steps|
    ensures forall k :: Read(steps[..n], c, k) <==> k < n && Read(steps, c, k)
    ensures Unread(steps, c) ==> Unread(steps[..n], c)
  {
    hide Shown;
    ShownBefore(steps, n);
    forall k
      ensures Read(steps[..n], c, k) <==> k < n && Read(steps, c, k)
    {
    }
  }

  lemma AfterStep(steps: seq<Step>, k: nat)
    requires k < |steps|
    ensures After(steps[..k + 1]) == Apply(After(steps[..k]), steps[k])
  {
    assert steps[..k + 1][..k] == steps[..k];
  }

  // ---------------------------------------------------------------- one step

  /** What the tables hold for a channel is the receiver, under the right public key. */
  ghost predicate Holds(s: Store, c: Channel, o: Origin, receiver: Receiver) {
    && Loads(s, c)
    && s.keys[c].publicSigningKey == Some(o.signer)
    && Stored(s, c) == receiver
  }

  /** The channel's receiver, if there is one, is on the chain of `o`; if not, no key of it is kept. */
  ghost predicate Healthy(s: Store, c: Channel, o: Origin) {
    if c in s.keys then Holds(s, c, o, Stored(s, c)) && OnChain(Stored(s, c), o) else c !in s.skipped
  }

  /** The two tables agree about the channel. */
  ghost predicate SameFor(s: Store, t: Store, c: Channel) {
    && (c in t.keys <==> c in s.keys)
    && (c in t.skipped <==> c in s.skipped)
    && LoadSkipped(t, c) == LoadSkipped(s, c)
    && (c in s.keys ==> t.keys[c] == s.keys[c] && Stored(t, c) == Stored(s, c))
  }

  lemma {:induction false} ReceiveFollowsDecrypt(s: Store, c: Channel, o: Origin, receiver: Receiver,
                                                 msg: EncryptedMessage)
    requires Holds(s, c, o, receiver) && OnChain(receiver, o)
    ensures var (after, plaintext) := Decrypt(receiver, Some(o.signer), Decode(msg), true);
            && Holds(Receive(s, c, msg).0, c, o, after)
            && OnChain(after, o)
            && Receive(s, c, msg).1 == plaintext
            && (plaintext == "" ==> after == receiver)
  {
    hide Decrypt, OnChain;
    var (after, plaintext) := Decrypt(receiver, Some(o.signer), Decode(msg), true);
    CachedStepKeepsOnChain(receiver, o, Decode(msg));
    PositiveIterations(after, o);
    InvalidIsRejected(receiver, o, Decode(msg));
  }

  lemma PositiveIterations(st: Receiver, o: Origin)
    requires OnChain(st, o)
    ensures st.chainKey.Some? && (map i | i in st.skipped && i > 0 :: st.skipped[i]) == st.skipped
  {
  }

  lemma InvalidIsRejected(st: Receiver, o: Origin, msg: EncryptedMessage)
    ensures !msg.valid ==> Decrypt(st, Some(o.signer), msg, true) == (st, "")
    ensures Decrypt(st, Some(o.signer), msg, true).1 == "" && OnChain(st, o) ==>
              Decrypt(st, Some(o.signer), msg, true).0 == st
  {
    if OnChain(st, o) {
      DeliveryEffect(st, o, msg);
    }
  }

  lemma NoKeyNoChange(s: Store, c: Channel, msg: EncryptedMessage)
    requires c !in s.keys
    ensures Receive(s, c, msg) == (s, "")
  {
  }

  /** Whether the step is about this channel. */
  predicate Concerns(step: Step, c: Channel) {
    if step.LeaveStep? then step.group == c.group else step.channel == c
  }

  /** Traffic on other channels does not touch this one. */
  lemma {:induction false} OthersUntouched(s: Store, step: Step, c: Channel)
    requires !Concerns(step, c)
    ensures SameFor(s, Apply(s, step), c)
  {
    hide Decrypt;
  }

  /** Installing before anything was cached starts the receiver anew. */
  lemma InstallStarts(s: Store, c: Channel, o: Origin)
    requires LoadSkipped(s, c) == map[]
    ensures Holds(Apply(s, InstallStep(c, o)), c, o, Installed(o))
    ensures OnChain(Installed(o), o)
  {
  }

  lemma SendAdvances(s: Store, c: Channel, o: Origin, iteration: nat)
    requires Healthy(s, c, o) && (c in s.keys ==> s.keys[c].iteration < iteration)
    ensures Healthy(Apply(s, SendStep(c, o, iteration)), c, o)
    ensures LoadSkipped(Apply(s, SendStep(c, o, iteration)), c) == LoadSkipped(s, c)
  {
  }

  lemma LeaveForgets(s: Store, c: Channel)
    ensures var t := Apply(s, LeaveStep(c.group)); c !in t.keys && c !in t.skipped && LoadSkipped(t, c) == map[]
  {
  }

  // ---------------------------------------------------------------- every reachable store

  lemma {:induction false} RunIsHealthy(steps: seq<Step>, c: Channel, o: Origin)
    requires Regular(steps, c, o)
    ensures Healthy(After(steps), c, o)
    ensures Unread(steps, c) ==> LoadSkipped(After(steps), c) == map[]
  {
    hide Receive, Decrypt, OnChain, Shown, LoadSkipped, Unread;
    if steps != [] {
      var init, last := steps[..|steps| - 1], steps[|steps| - 1];
      RunIsHealthy(init, c, o);
      ReadBefore(steps, c, |init|);
      var s := After(init);
      if !Concerns(last, c) {
        OthersUntouched(s, last, c);
      } else {
        match last
        case InstallStep(_, _) => InstallStarts(s, c, o);
        case SendStep(_, _, iteration) => SendAdvances(s, c, o, iteration);
        case LeaveStep(_) => LeaveForgets(s, c);
        case MessageStep(_, msg) =>
          ShownAt(steps, |init|);
          MessageKeepsHealthy(s, c, o, msg);
          assert Unread(steps, c) ==> !Read(steps, c, |init|) by { ReadAtLast(steps, c); }
      }
    } else {
      NothingStored(c);
    }
  }

  lemma NothingStored(c: Channel)
    ensures LoadSkipped(After([]), c) == map[] && c !in After([]).keys && c !in After([]).skipped
  {
  }

  lemma ReadAtLast(steps: seq<Step>, c: Channel)
    ensures Unread(steps, c) ==> !Read(steps, c, |steps| - 1)
  {
  }

  lemma {:induction false} MessageKeepsHealthy(s: Store, c: Channel, o: Origin, msg: EncryptedMessage)
    requires Healthy(s, c, o)
    ensures Healthy(Receive(s, c, msg).0, c, o)
    ensures Receive(s, c, msg).1 == "" ==> Receive(s, c, msg).0 == s
  {
    hide OnChain, Decrypt;
    if c in s.keys {
      ReceiveFollowsDecrypt(s, c, o, Stored(s, c), msg);
    } else {
      NoKeyNoChange(s, c, msg);
    }
  }

  // ---------------------------------------------------------------- read at most once

  /** No key for the iteration is left in the tables. */
  ghost predicate Past(s: Store, c: Channel, i: int) {
    if c in s.keys then Gone(Stored(s, c), i) else c !in s.skipped
  }

  /** Once read, an iteration stays out of reach. */
  lemma {:induction false} ReadIsPast(steps: seq<Step>, c: Channel, o: Origin, k: nat, n: nat)
    requires Regular(steps, c, o) && Read(steps, c, k) && k < n <= |steps|
    ensures Past(After(steps[..n]), c, steps[k].msg.iteration)
  {
    hide Receive, After, Shown, Regular, Read, Healthy, Apply, Past, OnChain;
    var before, last := steps[..n - 1], steps[n - 1];
    var s := After(before);
    AfterStep(steps, n - 1);
    RegularBefore(steps, c, o, n - 1);
    RunIsHealthy(before, c, o);
    if k == n - 1 {
      ReadMakesPast(steps, c, o, k);
    } else {
      ReadIsPast(steps, c, o, k, n - 1);
      ReadBefore(steps, c, n - 1);
      assert !Unread(before, c) by { assert Read(before, c, k); }
      ReadMeans(steps, c, k);
      StepKeepsPast(before, c, o, last, steps[k].msg.iteration);
    }
  }

  lemma {:induction false} ReadMakesPast(steps: seq<Step>, c: Channel, o: Origin, k: nat)
    requires k < |steps| && Read(steps, c, k) && Healthy(After(steps[..k]), c, o)
    ensures c in After(steps[..k]).keys
    ensures Past(Apply(After(steps[..k]), steps[k]), c, steps[k].msg.iteration)
  {
    hide Receive, After, Shown, Decrypt, OnChain;
    var s, msg := After(steps[..k]), steps[k].msg;
    ShownAt(steps, k);
    if c in s.keys {
      ReceiveFollowsDecrypt(s, c, o, Stored(s, c), msg);
      AcceptedIsGone(Stored(s, c), o, Decode(msg));
    } else {
      NoKeyNoChange(s, c, msg);
    }
  }

  lemma {:induction false} StepKeepsPast(before: seq<Step>, c: Channel, o: Origin, step: Step, i: int)
    requires Healthy(After(before), c, o) && Past(After(before), c, i)
    requires Allowed(before, c, o, step) && !Unread(before, c)
    ensures Past(Apply(After(before), step), c, i)
  {
    hide Receive, After, Unread, OnChain, Decrypt;
    var s := After(before);
    if !Concerns(step, c) {
      OthersUntouched(s, step, c);
    } else {
      match step
      case InstallStep(_, _) =>
      case SendStep(_, _, iteration) =>
      case LeaveStep(_) =>
      case MessageStep(_, msg) =>
        if c in s.keys {
          ReceiveFollowsDecrypt(s, c, o, Stored(s, c), msg);
          GoneStays(Stored(s, c), o, Decode(msg), i);
        } else {
          NoKeyNoChange(s, c, msg);
        }
    }
  }

  /** Nobody but the sender has signed a message of the channel. */
  ghost predicate UnforgedOn(steps: seq<Step>, c: Channel, o: Origin, attempts: seq<Attempt>) {
    forall k | 0 <= k < |steps| && steps[k].MessageStep? && steps[k].channel == c :: Authored(o, attempts, steps[k].msg)
  }

  /** What is shown was sent, under the iteration of the message it is shown for. */
  lemma {:induction false} ShownWasSent(steps: seq<Step>, c: Channel, o: Origin, attempts: seq<Attempt>, k: nat)
    requires Regular(steps, c, o) && UnforgedOn(steps, c, o, attempts) && Read(steps, c, k)
    ensures exists i :: Carries(o, attempts, i, steps[k].msg, Shown(steps)[k])
  {
    hide Receive, After, Shown, Regular, Decrypt, OnChain, Sent;
    var s, msg := After(steps[..k]), steps[k].msg;
    RegularBefore(steps, c, o, k);
    RunIsHealthy(steps[..k], c, o);
    ReadMakesPast(steps, c, o, k);
    ShownAt(steps, k);
    ReceiveFollowsDecrypt(s, c, o, Stored(s, c), msg);
    AcceptedWasSent(o, attempts, Stored(s, c), Decode(msg), true);
    var i :| Carries(o, attempts, i, Decode(msg), Shown(steps)[k]);
    assert Carries(o, attempts, i, msg, Shown(steps)[k]);
  }

  /** Two messages of one channel that can both be read differ in iteration. */
  lemma {:induction false} ReadOncePerIteration(steps: seq<Step>, c: Channel, o: Origin, k: nat, l: nat)
    requires Regular(steps, c, o) && k < l && Read(steps, c, k) && Read(steps, c, l)
    ensures steps[k].msg.iteration != steps[l].msg.iteration
  {
    hide Receive, After, Shown, Regular, Decrypt, OnChain;
    var s := After(steps[..l]);
    RegularBefore(steps, c, o, l);
    RunIsHealthy(steps[..l], c, o);
    ReadIsPast(steps, c, o, k, l);
    ReadMakesPast(steps, c, o, l);
    ShownAt(steps, l);
    ReceiveFollowsDecrypt(s, c, o, Stored(s, c), steps[l].msg);
    GoneStays(Stored(s, c), o, Decode(steps[l].msg), steps[k].msg.iteration);
  }

  /**
   * Through the store as well, only what was sent is shown, under the iteration it was sent
   * at, and nothing that was sent is shown twice.
   */
  lemma {:induction false} ShownAtMostOnce(steps: seq<Step>, c: Channel, o: Origin, attempts: seq<Attempt>,
                                           k: nat, l: nat)
    requires Regular(steps, c, o) && UnforgedOn(steps, c, o, attempts)
    requires k < l && Read(steps, c, k) && Read(steps, c, l)
    ensures exists i, j :: i != j
              && Carries(o, attempts, i, steps[k].msg, Shown(steps)[k])
              && Carries(o, attempts, j, steps[l].msg, Shown(steps)[l])
  {
    hide Regular, UnforgedOn, Shown, Sent;
    ShownWasSent(steps, c, o, attempts, k);
    ShownWasSent(steps, c, o, attempts, l);
    ReadOncePerIteration(steps, c, o, k, l);
    var i :| Carries(o, attempts, i, steps[k].msg, Shown(steps)[k]);
    var j :| Carries(o, attempts, j, steps[l].msg, Shown(steps)[l]);
    assert i != j;
  }

  // ---------------------------------------------------------------- the store is invisible

  /** The messages a channel got while its key was there. */
  ghost function MessagesOn(steps: seq<Step>, c: Channel): seq<EncryptedMessage> {
    if steps == [] then []
    else
      var init, last := steps[..|steps| - 1], steps[|steps| - 1];
      if last.MessageStep? && last.channel == c && c in After(init).keys
      then MessagesOn(init, c) + [Decode(last.msg)]
      else MessagesOn(init, c)
  }

  lemma ReceiverSnoc(o: Origin, ds: seq<EncryptedMessage>, msg: EncryptedMessage)
    ensures ReceiverAfter(o, ds + [msg], true) == Decrypt(ReceiverAfter(o, ds, true), Some(o.signer), msg, true).0
  {
    assert (ds + [msg])[..|ds|] == ds;
  }

  /**
   * However the messages of many senders are interleaved, each channel of another device's
   * key holds in the tables what an in-memory receiver fed its messages alone would hold.
   */
  lemma {:induction false} StoreRefinesReceiver(steps: seq<Step>, c: Channel, o: Origin)
    requires Regular(steps, c, o) && OfAnotherDevice(steps, c)
    ensures c in After(steps).keys ==> Holds(After(steps), c, o, ReceiverAfter(o, MessagesOn(steps, c), true))
    ensures Unread(steps, c) ==> ReceiverAfter(o, MessagesOn(steps, c), true) == Installed(o)
  {
    hide Receive, Decrypt, OnChain, Shown, LoadSkipped, Unread, ReceiverAfter, Holds;
    if steps != [] {
      var init, last := steps[..|steps| - 1], steps[|steps| - 1];
      StoreRefinesReceiver(init, c, o);
      RunIsHealthy(init, c, o);
      ReadBefore(steps, c, |init|);
      var s := After(init);
      if !Concerns(last, c) {
        OthersUntouched(s, last, c);
        SameHolds(s, After(steps), c, o, ReceiverAfter(o, MessagesOn(init, c), true));
      } else {
        match last
        case InstallStep(_, _) => InstallStarts(s, c, o);
        case LeaveStep(_) => LeaveForgets(s, c);
        case MessageStep(_, msg) =>
          ShownAt(steps, |init|);
          ReadAtLast(steps, c);
          if c in s.keys {
            var receiver := ReceiverAfter(o, MessagesOn(init, c), true);
            ReceiverOnChain(o, MessagesOn(init, c), true);
            ReceiveFollowsDecrypt(s, c, o, receiver, msg);
            ReceiverSnoc(o, MessagesOn(init, c), Decode(msg));
          } else {
            NoKeyNoChange(s, c, msg);
          }
      }
    } else {
      NothingReceived(o);
      NothingStored(c);
    }
  }

  lemma NothingReceived(o: Origin)
    ensures ReceiverAfter(o, [], true) == Installed(o)
  {
  }

  lemma SameHolds(s: Store, t: Store, c: Channel, o: Origin, receiver: Receiver)
    requires SameFor(s, t, c)
    ensures Holds(s, c, o, receiver) ==> Holds(t, c, o, receiver)
  {
  }

  lemma {:induction false} MessagesGrow(steps: seq<Step>, c: Channel, k: nat, l: nat)
    requires k <= l <= |steps|
    ensures MessagesOn(steps[..k], c) <= MessagesOn(steps[..l], c)
  {
    hide After;
    if k < l {
      MessagesGrow(steps, c, k, l - 1);
      assert steps[..l][..l - 1] == steps[..l - 1];
    }
  }

  /** What is shown at a step is what that receiver makes of the message. */
  lemma {:induction false} ShownIsOutput(steps: seq<Step>, c: Channel, o: Origin, k: nat)
    requires Regular(steps, c, o) && OfAnotherDevice(steps, c) && Read(steps, c, k)
    ensures var n := |MessagesOn(steps[..k], c)|;
            && MessagesOn(steps[..k + 1], c) == MessagesOn(steps[..k], c) + [Decode(steps[k].msg)]
            && n < |MessagesOn(steps, c)|
            && MessagesOn(steps, c)[n] == Decode(steps[k].msg)
            && Output(o, MessagesOn(steps, c), n, true) == Shown(steps)[k]
  {
    hide Decrypt, ReceiverAfter, Receive, After, Shown, Regular, OnChain, MessagesOn;
    var before := MessagesOn(steps[..k], c);
    RegularBefore(steps, c, o, k);
    RunIsHealthy(steps[..k], c, o);
    ReadMakesPast(steps, c, o, k);
    ShownAt(steps, k);
    StoreRefinesReceiver(steps[..k], c, o);
    MessageCounts(steps, c, k);
    ReceiverOnChain(o, before, true);
    ReceiveFollowsDecrypt(After(steps[..k]), c, o, ReceiverAfter(o, before, true), steps[k].msg);
    assert MessagesOn(steps, c)[..|before|] == before;
  }

  lemma {:induction false} MessageCounts(steps: seq<Step>, c: Channel, k: nat)
    requires k < |steps| && steps[k].MessageStep? && steps[k].channel == c && c in After(steps[..k]).keys
    ensures MessagesOn(steps[..k + 1], c) == MessagesOn(steps[..k], c) + [Decode(steps[k].msg)] <= MessagesOn(steps, c)
  {
    hide After;
    assert steps[..k + 1][..k] == steps[..k] && steps[..|steps|] == steps;
    MessagesGrow(steps, c, k + 1, |steps|);
  }

  /** Whatever is shown was within the bounds on decoding, under a complete key row, and signed with its key. */
  lemma {:induction false} ShownIsWellFormed(s: Store, c: Channel, msg: EncryptedMessage)
    requires Receive(s, c, msg).1 != ""
    ensures 0 < msg.iteration <= 100000000
    ensures msg.iv.size == 12 && msg.ciphertext.Size() >= 16 && msg.signature.Size() == 64
    ensures c in s.keys && s.keys[c].chainKey.Some? && s.keys[c].publicSigningKey.Some?
    ensures msg.signature == Ed25519(s.keys[c].publicSigningKey.value, msg.iv, msg.ciphertext)
  {
    hide Newest, Jumped, RatchetBy;
  }

  // ---------------------------------------------------------------- what was sent gets through

  /**
   * A message as it was sent fares in the store as it would in memory, if and only if its
   * iteration is within the bound put on it on decoding; beyond that it is lost.
   */
  lemma {:induction false} GenuineGetsThrough(s: Store, c: Channel, o: Origin, receiver: Receiver,
                                              attempts: seq<Attempt>, j: nat, msg: EncryptedMessage)
    requires Holds(s, c, o, receiver) && OnChain(receiver, o) && IsSent(o, attempts, j, msg)
    ensures var (after, plaintext) := Decrypt(receiver, Some(o.signer), msg, true);
            var (t, shown) := Receive(s, c, msg);
            if msg.iteration <= 100000000 then shown == plaintext && Holds(t, c, o, after)
            else shown == "" && t == s
  {
    hide Decrypt, Receive, OnChain, Sent, Holds;
    SentDecodes(o, attempts, j, msg);
    if msg.iteration <= 100000000 {
      ReceiveFollowsDecrypt(s, c, o, receiver, msg);
    } else {
      InvalidIsLost(s, c, msg);
    }
  }

  lemma SentDecodes(o: Origin, attempts: seq<Attempt>, j: nat, msg: EncryptedMessage)
    requires IsSent(o, attempts, j, msg)
    ensures if msg.iteration <= 100000000 then Decode(msg) == msg else !Decode(msg).valid
  {
    SentShape(o, attempts, j, msg);
  }

  lemma InvalidIsLost(s: Store, c: Channel, msg: EncryptedMessage)
    requires !Decode(msg).valid
    ensures Receive(s, c, msg) == (s, "")
  {
  }

  /** A key row was written for the channel, by a distribution or an own send, and its group not left since. */
  predicate HasKey(steps: seq<Step>, c: Channel) {
    steps != []
    && match steps[|steps| - 1]
       case InstallStep(d, _) => d == c || HasKey(steps[..|steps| - 1], c)
       case SendStep(d, _, _) => d == c || HasKey(steps[..|steps| - 1], c)
       case MessageStep(_, _) => HasKey(steps[..|steps| - 1], c)
       case LeaveStep(group) => group != c.group && HasKey(steps[..|steps| - 1], c)
  }

  lemma {:induction false} HasKeyExactly(steps: seq<Step>, c: Channel)
    ensures HasKey(steps, c) <==> c in After(steps).keys
  {
    hide Receive;
    if steps != [] {
      var init, last := steps[..|steps| - 1], steps[|steps| - 1];
      HasKeyExactly(init, c);
      if last.MessageStep? {
        ReceiveKeepsKeys(After(init), last.channel, last.msg);
      }
    }
  }

  lemma ReceiveKeepsKeys(s: Store, c: Channel, msg: EncryptedMessage)
    ensures Receive(s, c, msg).0.keys.Keys == s.keys.Keys
  {
    hide Decrypt;
  }

  /** Step `k` is a message of the channel, arriving while there is a key for it. */
  predicate Arrives(steps: seq<Step>, c: Channel, k: int) {
    0 <= k < |steps| && steps[k].MessageStep? && steps[k].channel == c && HasKey(steps[..k], c)
  }

  /** These messages, as they arrived. */
  function Arrived(steps: seq<Step>, c: Channel): seq<EncryptedMessage> {
    if steps == [] then []
    else
      var init, last := steps[..|steps| - 1], steps[|steps| - 1];
      if last.MessageStep? && last.channel == c && HasKey(init, c) then Arrived(init, c) + [last.msg]
      else Arrived(init, c)
  }

  predicate WithinBound(ds: seq<EncryptedMessage>) {
    forall k | 0 <= k < |ds| :: ds[k].iteration <= 100000000
  }

  lemma {:induction false} ArrivedIsReceived(steps: seq<Step>, c: Channel, o: Origin, attempts: seq<Attempt>)
    requires Genuine(o, attempts, Arrived(steps, c)) && WithinBound(Arrived(steps, c))
    ensures MessagesOn(steps, c) == Arrived(steps, c)
  {
    hide After, HasKey, Sent;
    if steps != [] {
      var init, last := steps[..|steps| - 1], steps[|steps| - 1];
      HasKeyExactly(init, c);
      var before, now := Arrived(init, c), Arrived(steps, c);
      assert forall k | 0 <= k < |before| :: before[k] == now[k];
      ArrivedIsReceived(init, c, o, attempts);
      if now != before {
        assert WasSent(o, attempts, now[|before|]);
        var j :| IsSent(o, attempts, j, last.msg);
        SentDecodes(o, attempts, j, last.msg);
      }
    }
  }

  lemma {:induction false} ArrivedGrows(steps: seq<Step>, c: Channel, k: nat, l: nat)
    requires k <= l <= |steps|
    ensures Arrived(steps[..k], c) <= Arrived(steps[..l], c)
  {
    hide HasKey;
    if k < l {
      ArrivedGrows(steps, c, k, l - 1);
      assert steps[..l][..l - 1] == steps[..l - 1];
    }
  }

  /** The `n`-th message to arrive arrives at some step. */
  lemma {:induction false} ArrivalOf(steps: seq<Step>, c: Channel, n: nat) returns (k: nat)
    requires n < |Arrived(steps, c)|
    ensures Arrives(steps, c, k) && |Arrived(steps[..k], c)| == n
  {
    hide HasKey;
    k := |steps| - 1;
    var init := steps[..k];
    if n < |Arrived(init, c)| {
      k := ArrivalOf(init, c, n);
      assert init[..k] == steps[..k];
    }
  }

  lemma {:induction false} ArrivalCounts(steps: seq<Step>, c: Channel, k: nat)
    requires Arrives(steps, c, k)
    ensures var before := Arrived(steps[..k], c);
            && before <= Arrived(steps, c)
            && |before| < |Arrived(steps, c)|
            && Arrived(steps, c)[|before|] == steps[k].msg
  {
    hide HasKey;
    assert steps[..k + 1][..k] == steps[..k] && steps[..|steps|] == steps;
    ArrivedGrows(steps, c, k, |steps|);
    ArrivedGrows(steps, c, k + 1, |steps|);
  }

  /** What is shown for a message as it was sent is the output of the receiver that got all that arrived before. */
  lemma {:induction false} ArrivalIsOutput(steps: seq<Step>, c: Channel, o: Origin, attempts: seq<Attempt>, k: nat)
    requires Regular(steps, c, o) && OfAnotherDevice(steps, c) && Arrives(steps, c, k)
    requires Genuine(o, attempts, Arrived(steps, c)) && WithinBound(Arrived(steps[..k], c))
    ensures var n := |Arrived(steps[..k], c)|;
            && n < |Arrived(steps, c)|
            && Shown(steps)[k] ==
               if steps[k].msg.iteration <= 100000000 then Output(o, Arrived(steps, c), n, true) else ""
  {
    hide Decrypt, ReceiverAfter, Receive, After, Shown, Regular, OnChain, Arrived, MessagesOn, HasKey, Sent;
    var before := Arrived(steps[..k], c);
    RegularBefore(steps, c, o, k);
    ShownAt(steps, k);
    ArrivalCounts(steps, c, k);
    assert forall i | 0 <= i < |before| :: before[i] == Arrived(steps, c)[i];
    ArrivedIsReceived(steps[..k], c, o, attempts);
    HasKeyExactly(steps[..k], c);
    StoreRefinesReceiver(steps[..k], c, o);
    ReceiverOnChain(o, before, true);
    assert WasSent(o, attempts, Arrived(steps, c)[|before|]);
    var j :| IsSent(o, attempts, j, steps[k].msg);
    GenuineGetsThrough(After(steps[..k]), c, o, ReceiverAfter(o, before, true), attempts, j, steps[k].msg);
    assert Arrived(steps, c)[..|before|] == before;
  }

  /**
   * Through the store too: whatever happens on other channels, messages of one channel that
   * arrive as they were sent, once each and in an order within the two limits, are all shown,
   * each with its own plaintext.
   */
  lemma {:induction false} TolerableOrderIsShown(steps: seq<Step>, c: Channel, o: Origin, attempts: seq<Attempt>,
                                                 k: nat, j: nat)
    requires Regular(steps, c, o) && OfAnotherDevice(steps, c)
    requires var ds := Arrived(steps, c);
             Genuine(o, attempts, ds) && WithinBound(ds) && GroupDelivery.Distinct(ds) && Tolerable(ds)
    requires Arrives(steps, c, k) && IsSent(o, attempts, j, steps[k].msg)
    ensures Shown(steps)[k] == attempts[j].plaintext
  {
    hide Shown, Regular, Arrived, HasKey, Sent, Genuine, GroupDelivery.Distinct, Output, Fits, Exact, WithinBound;
    var ds, n := Arrived(steps, c), |Arrived(steps[..k], c)|;
    ArrivalCounts(steps, c, k);
    WithinBoundBefore(ds, Arrived(steps[..k], c), n);
    ArrivalIsOutput(steps, c, o, attempts, k);
    TolerableOrderIsDecrypted(o, attempts, ds, |ds|);
    GenuineOutputIsPlaintext(o, attempts, ds, n, j);
  }

  lemma WithinBoundBefore(ds: seq<EncryptedMessage>, before: seq<EncryptedMessage>, n: nat)
    requires WithinBound(ds) && before <= ds && n < |ds|
    ensures WithinBound(before) && ds[n].iteration <= 100000000
  {
    assert forall i | 0 <= i < |before| :: before[i] == ds[i];
  }

  /**
   * And if everything the sender emitted arrives, each message once, then all of it is shown
   * if and only if the order keeps within the two limits and no iteration is out of bounds.
   */
  lemma {:induction false} PermutationShownInFull(steps: seq<Step>, c: Channel, o: Origin, attempts: seq<Attempt>)
    requires Regular(steps, c, o) && OfAnotherDevice(steps, c)
    requires Shuffles(o, attempts, Arrived(steps, c)) && Unbroken(attempts)
    ensures Tolerable(Arrived(steps, c)) && WithinBound(Arrived(steps, c)) <==>
            forall k | Arrives(steps, c, k) :: Shown(steps)[k] != ""
  {
    hide Shown, Regular, Arrived, HasKey, Shuffles, Unbroken, Genuine, GroupDelivery.Distinct, Output, Fits, IsSent;
    var ds := Arrived(steps, c);
    ShuffledIsGenuine(o, attempts, ds);
    ShuffledIsDistinct(o, attempts, ds);
    if Tolerable(ds) && WithinBound(ds) {
      forall k | Arrives(steps, c, k)
        ensures Shown(steps)[k] != ""
      {
        var j := SentAs(steps, c, o, attempts, k);
        TolerableOrderIsShown(steps, c, o, attempts, k, j);
      }
    }
    if forall k | Arrives(steps, c, k) :: Shown(steps)[k] != "" {
      AllShownIsWithinBound(steps, c, o, attempts, |ds|);
      forall n | 0 <= n < |ds|
        ensures Output(o, ds, n, true) != ""
      {
        var k := ArrivalOf(steps, c, n);
        ArrivalCounts(steps, c, k);
        AllShownIsWithinBound(steps, c, o, attempts, n);
        assert Arrived(steps[..k], c) == ds[..n];
        AllShownIsOutput(steps, c, o, attempts, k);
      }
      assert ds[..|ds|] == ds;
      PermutationDecryptedInFull(o, attempts, ds);
    }
  }

  lemma {:induction false} SentAs(steps: seq<Step>, c: Channel, o: Origin, attempts: seq<Attempt>, k: nat)
    returns (j: nat)
    requires Arrives(steps, c, k) && Genuine(o, attempts, Arrived(steps, c))
    ensures k < |steps| && steps[k].MessageStep? && IsSent(o, attempts, j, steps[k].msg)
    ensures attempts[j].plaintext != ""
  {
    hide HasKey, Arrived, Sent;
    ArrivalCounts(steps, c, k);
    assert WasSent(o, attempts, Arrived(steps, c)[|Arrived(steps[..k], c)|]);
    j :| IsSent(o, attempts, j, steps[k].msg);
    SentShape(o, attempts, j, steps[k].msg);
  }

  lemma {:induction false} AllShownIsOutput(steps: seq<Step>, c: Channel, o: Origin, attempts: seq<Attempt>, k: nat)
    requires Regular(steps, c, o) && OfAnotherDevice(steps, c) && Arrives(steps, c, k)
    requires Genuine(o, attempts, Arrived(steps, c)) && WithinBound(Arrived(steps[..k], c))
    requires k < |steps| && Shown(steps)[k] != ""
    ensures var n := |Arrived(steps[..k], c)|;
            n < |Arrived(steps, c)| && Output(o, Arrived(steps, c), n, true) != ""
            && Arrived(steps, c)[n].iteration <= 100000000
  {
    hide Shown, Regular, Arrived, HasKey, Genuine, Output, WithinBound;
    ArrivalIsOutput(steps, c, o, attempts, k);
    ArrivalCounts(steps, c, k);
  }

  lemma {:induction false} AllShownIsWithinBound(steps: seq<Step>, c: Channel, o: Origin, attempts: seq<Attempt>,
                                                 n: nat)
    requires Regular(steps, c, o) && OfAnotherDevice(steps, c) && Genuine(o, attempts, Arrived(steps, c))
    requires n <= |Arrived(steps, c)| && forall k | Arrives(steps, c, k) :: Shown(steps)[k] != ""
    ensures WithinBound(Arrived(steps, c)[..n])
  {
    hide Shown, Regular, Arrived, HasKey, Genuine, Output;
    if n > 0 {
      AllShownIsWithinBound(steps, c, o, attempts, n - 1);
      var k := ArrivalOf(steps, c, n - 1);
      ArrivalCounts(steps, c, k);
      assert Arrived(steps[..k], c) == Arrived(steps, c)[..n - 1];
      AllShownIsOutput(steps, c, o, attempts, k);
    }
  }

  // ---------------------------------------------------------------- installing a key again

  /** What is shown if the run goes on with the key installed once more and the message arriving once more. */
  ghost function Again(steps: seq<Step>, c: Channel, o: Origin, msg: EncryptedMessage): string {
    Shown(steps + [InstallStep(c, o), MessageStep(c, msg)])[|steps| + 1]
  }

  lemma {:induction false} AgainIsReceived(steps: seq<Step>, c: Channel, o: Origin, msg: EncryptedMessage)
    ensures Again(steps, c, o, msg) == Receive(Apply(After(steps), InstallStep(c, o)), c, msg).1
  {
    hide Receive, Shown;
    var more := steps + [InstallStep(c, o), MessageStep(c, msg)];
    ShownAt(more, |steps| + 1);
    AfterStep(more, |steps|);
    assert more[..|steps|] == steps;
  }

  /**
   * Installing a key under which messages were read winds its channel back: after any regular
   * run, each of these messages can then be read again, to the same text, if and only if it is
   * within one jump of the start.  A second distribution has that effect if it has an entry
   * this device can open still, which its own copy is, and one sealed to a further prekey.
   */
  lemma {:induction false} ReinstallReplays(steps: seq<Step>, c: Channel, o: Origin, k: nat)
    requires Regular(steps, c, o) && Read(steps, c, k)
    ensures Again(steps, c, o, steps[k].msg) ==
            if steps[k].msg.iteration <= 2000 then Shown(steps)[k] else ""
  {
    hide Receive, After, Shown, Regular, Decrypt, OnChain;
    var s, msg := After(steps[..k]), steps[k].msg;
    RegularBefore(steps, c, o, k);
    RunIsHealthy(steps[..k], c, o);
    ReadMakesPast(steps, c, o, k);
    ShownAt(steps, k);
    ReceiveFollowsDecrypt(s, c, o, Stored(s, c), msg);
    RunIsHealthy(steps, c, o);
    ReadIsPast(steps, c, o, k, |steps|);
    assert steps[..|steps|] == steps;
    OpensFromTheStart(After(steps), c, o, Stored(s, c), msg);
    AgainIsReceived(steps, c, o, msg);
  }

  lemma {:induction false} OpensFromTheStart(s: Store, c: Channel, o: Origin, st: Receiver, msg: EncryptedMessage)
    requires Past(s, c, msg.iteration)
    requires OnChain(st, o) && Decrypt(st, Some(o.signer), Decode(msg), true).1 != ""
    ensures Receive(Apply(s, InstallStep(c, o)), c, msg).1 ==
            if msg.iteration <= MAX_RATCHET_STEPS then Decrypt(st, Some(o.signer), Decode(msg), true).1 else ""
  {
    var start := Receiver(Some(Seed(o.seed)), 0, LoadSkipped(s, c));
    AcceptedIsSealed(st, o, Decode(msg), true);
    assert Stored(Apply(s, InstallStep(c, o)), c) == start;
    assert msg.iteration !in start.skipped;
    assert WellFormed(start, Decode(msg));
  }

  /** The first message ever read on a channel is within one jump of the start. */
  lemma {:induction false} FirstReadIsNear(steps: seq<Step>, c: Channel, o: Origin) returns (k: nat)
    requires Regular(steps, c, o) && OfAnotherDevice(steps, c) && !Unread(steps, c)
    ensures Read(steps, c, k) && steps[k].msg.iteration <= MAX_RATCHET_STEPS
    decreases |steps|
  {
    hide Receive, After, Shown, Decrypt, OnChain, Unread, Read, Regular;
    var l := SomeRead(steps, c);
    var init := steps[..|steps| - 1];
    ReadBefore(steps, c, |init|);
    RegularBefore(steps, c, o, |init|);
    if !Unread(init, c) {
      k := FirstReadIsNear(init, c, o);
    } else {
      k := l;
      assert k == |init| by { OnlyLastIsRead(steps, c, k); }
      StoreRefinesReceiver(init, c, o);
      RunIsHealthy(init, c, o);
      ReadMakesPast(steps, c, o, k);
      ShownAt(steps, k);
      assert Shown(steps)[k] != "" && steps[k].channel == c by { assert Read(steps, c, k); ReadMeans(steps, c, k); }
      ReceiveFollowsDecrypt(After(init), c, o, Installed(o), steps[k].msg);
      FromTheStart(o, Decode(steps[k].msg));
    }
  }

  lemma {:induction false} SomeRead(steps: seq<Step>, c: Channel) returns (k: nat)
    requires !Unread(steps, c)
    ensures Read(steps, c, k) && k < |steps|
  {
    k :| Read(steps, c, k);
  }

  lemma OnlyLastIsRead(steps: seq<Step>, c: Channel, k: nat)
    requires Read(steps, c, k) && Unread(steps[..|steps| - 1], c)
    ensures k == |steps| - 1
  {
    hide Shown;
    ReadBefore(steps, c, |steps| - 1);
  }

  lemma ReadMeans(steps: seq<Step>, c: Channel, k: nat)
    requires Read(steps, c, k)
    ensures k < |steps| && steps[k].MessageStep? && steps[k].channel == c && Shown(steps)[k] != ""
  {
  }

  lemma FromTheStart(o: Origin, msg: EncryptedMessage)
    requires Decrypt(Installed(o), Some(o.signer), msg, true).1 != ""
    ensures msg.iteration <= MAX_RATCHET_STEPS
  {
    hide Newest;
  }

  /**
   * So the rule for installing is exact: after any regular run, installing the key again makes
   * some message readable a second time if and only if something has been read under it.
   */
  lemma {:induction false} ReinstallReplaysExactly(steps: seq<Step>, c: Channel, o: Origin)
    requires Regular(steps, c, o) && OfAnotherDevice(steps, c)
    ensures !Unread(steps, c) <==>
            exists k :: Read(steps, c, k) && Again(steps, c, o, steps[k].msg) == Shown(steps)[k]
  {
    hide Again, Shown, Regular, Read;
    if !Unread(steps, c) {
      var k := FirstReadIsNear(steps, c, o);
      ReinstallReplays(steps, c, o, k);
      ReadMeans(steps, c, k);
      assert Read(steps, c, k) && Again(steps, c, o, steps[k].msg) == Shown(steps)[k];
    }
  }
}
