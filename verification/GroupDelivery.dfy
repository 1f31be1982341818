/**
 * Whole runs of the group ratchet: one sender, one receiver, and an arbitrary finite
 * sequence of deliveries between them.
 */
module GroupDelivery {
  import opened Wrappers
  import opened Collections
  import opened SymbolicCrypto
  import opened GroupE2eeCrypto

  /** The three fresh values a sender key is generated from. */
  datatype Origin = Origin(keyId: nat, seed: nat, signer: nat)

  datatype Attempt = Attempt(plaintext: string, iv: Option<nat>)

  // ---------------------------------------------------------------- the sender's history

  function SenderAfter(o: Origin, attempts: seq<Attempt>): SenderKey {
    if attempts == [] then GenerateSenderKey(o.keyId, o.seed, o.signer)
    else
      var last := attempts[|attempts| - 1];
      Encrypt(SenderAfter(o, attempts[..|attempts| - 1]), last.plaintext, last.iv).0
  }

  /** The message attempt `j` emitted, if it emitted one. */
  function Sent(o: Origin, attempts: seq<Attempt>, j: nat): Option<EncryptedMessage>
    requires j < |attempts|
  {
    Encrypt(SenderAfter(o, attempts[..j]), attempts[j].plaintext, attempts[j].iv).1
  }

  predicate IsSent(o: Origin, attempts: seq<Attempt>, j: int, msg: EncryptedMessage) {
    0 <= j < |attempts| && Sent(o, attempts, j) == Some(msg)
  }

  function ChainAt(o: Origin, iteration: nat): ChainKey {
    RatchetBy(Seed(o.seed), iteration)
  }

  function MessageKeyAt(o: Origin, iteration: nat): MessageKey {
    MsgKey(ChainAt(o, iteration), iteration)
  }

  lemma {:induction false} SenderOnChain(o: Origin, attempts: seq<Attempt>)
    ensures var key := SenderAfter(o, attempts);
            0 <= key.iteration <= |attempts| &&
            key == SenderKey(o.keyId, Some(ChainAt(o, key.iteration)), Some(o.signer), Some(o.signer),
                             key.iteration, true)
  {
    if attempts != [] {
      SenderOnChain(o, attempts[..|attempts| - 1]);
    }
  }

  lemma {:induction false} SenderOnlyAdvances(o: Origin, attempts: seq<Attempt>, i: nat, j: nat)
    requires i <= j <= |attempts|
    ensures SenderAfter(o, attempts[..i]).iteration <= SenderAfter(o, attempts[..j]).iteration
  {
    if i < j {
      assert attempts[..j][..j - 1] == attempts[..j - 1];
      SenderOnlyAdvances(o, attempts, i, j - 1);
    }
  }

  /** What is inside an emitted message, and that no two share an iteration. */
  lemma {:induction false} SentShape(o: Origin, attempts: seq<Attempt>, j: nat, msg: EncryptedMessage)
    requires IsSent(o, attempts, j, msg)
    ensures 0 < msg.iteration == SenderAfter(o, attempts[..j]).iteration + 1
    ensures msg.iteration == SenderAfter(o, attempts[..j + 1]).iteration
    ensures msg.valid && msg.iv.size == GCM_IV_SIZE && attempts[j].plaintext != ""
    ensures msg.ciphertext == Gcm(MessageKeyAt(o, msg.iteration), msg.iv, attempts[j].plaintext)
    ensures msg.signature == Ed25519(o.signer, msg.iv, msg.ciphertext)
  {
    SenderOnChain(o, attempts[..j]);
    assert attempts[..j + 1][..j] == attempts[..j];
  }

  lemma {:induction false} SentIterationsDiffer(o: Origin, attempts: seq<Attempt>, i: nat, j: nat,
                                                a: EncryptedMessage, b: EncryptedMessage)
    requires IsSent(o, attempts, i, a) && IsSent(o, attempts, j, b)
    ensures a.iteration == b.iteration <==> i == j
  {
    SentShape(o, attempts, i, a);
    SentShape(o, attempts, j, b);
    if i < j {
      SenderOnlyAdvances(o, attempts, i + 1, j);
    } else if j < i {
      SenderOnlyAdvances(o, attempts, j + 1, i);
    }
  }

  /** How many of the attempts had a text to send. */
  function WithText(attempts: seq<Attempt>): nat {
    if attempts == [] then 0
    else WithText(attempts[..|attempts| - 1]) + if attempts[|attempts| - 1].plaintext != "" then 1 else 0
  }

  /** Every attempt with a text moves the chain on by one, whether a message comes of it or not. */
  lemma {:induction false} ChainCountsAttempts(o: Origin, attempts: seq<Attempt>)
    ensures SenderAfter(o, attempts).iteration == WithText(attempts)
  {
    if attempts != [] {
      ChainCountsAttempts(o, attempts[..|attempts| - 1]);
      SenderOnChain(o, attempts[..|attempts| - 1]);
    }
  }

  /** An attempt emits a message if and only if it has a text and a nonce, under the number of texts so far. */
  lemma {:induction false} SentExactly(o: Origin, attempts: seq<Attempt>, j: nat)
    requires j < |attempts|
    ensures Sent(o, attempts, j).Some? <==> attempts[j].plaintext != "" && attempts[j].iv.Some?
    ensures Sent(o, attempts, j).Some? ==>
              var msg := Sent(o, attempts, j).value;
              && msg.keyId == o.keyId
              && msg.iteration == WithText(attempts[..j + 1])
              && msg.iv.value == attempts[j].iv.value
  {
    SenderOnChain(o, attempts[..j]);
    ChainCountsAttempts(o, attempts[..j]);
    assert attempts[..j + 1][..j] == attempts[..j];
  }

  // ---------------------------------------------------------------- the receiver's run

  /** A receiver starts from the seed the distribution message carried. */
  function Installed(o: Origin): Receiver {
    Receiver(Some(Seed(o.seed)), 0, map[])
  }

  ghost function ReceiverAfter(o: Origin, ds: seq<EncryptedMessage>, caching: bool): Receiver {
    if ds == [] then Installed(o)
    else Decrypt(ReceiverAfter(o, ds[..|ds| - 1], caching), Some(o.signer), ds[|ds| - 1], caching).0
  }

  ghost function Output(o: Origin, ds: seq<EncryptedMessage>, k: nat, caching: bool): string
    requires k < |ds|
  {
    Decrypt(ReceiverAfter(o, ds[..k], caching), Some(o.signer), ds[k], caching).1
  }

  lemma ReceiverStep(o: Origin, ds: seq<EncryptedMessage>, k: nat, caching: bool)
    requires k < |ds|
    ensures ReceiverAfter(o, ds[..k + 1], caching)
         == Decrypt(ReceiverAfter(o, ds[..k], caching), Some(o.signer), ds[k], caching).0
  {
    assert ds[..k + 1][..k] == ds[..k];
  }

  /** A signature under the sender's key on this message, if there is one, was made by the sender. */
  ghost predicate Authored(o: Origin, attempts: seq<Attempt>, msg: EncryptedMessage) {
    msg.signature.Ed25519? && msg.signature.signer == o.signer ==>
      exists j, sent :: IsSent(o, attempts, j, sent)
        && sent.iv == msg.signature.iv && sent.ciphertext == msg.signature.ciphertext
  }

  /**
   * Every signature under the sender's key was made by the sender.  Nothing else is
   * assumed of a delivery: it may be a duplicate, re-numbered, re-keyed or made up.
   */
  ghost predicate Unforged(o: Origin, attempts: seq<Attempt>, ds: seq<EncryptedMessage>) {
    forall k | 0 <= k < |ds| :: Authored(o, attempts, ds[k])
  }

  // ---------------------------------------------------------------- the receiver's invariant

  ghost predicate OnChain(st: Receiver, o: Origin) {
    && st.iteration >= 0
    && st.chainKey == Some(ChainAt(o, st.iteration))
    && (forall i | i in st.skipped :: 0 < i < st.iteration && st.skipped[i] == MessageKeyAt(o, i))
    && |st.skipped| <= MAX_SKIPPED_MESSAGE_KEYS
  }

  lemma {:induction false} RatchetByAdds(chainKey: ChainKey, a: nat, b: nat)
    ensures RatchetBy(RatchetBy(chainKey, a), b) == RatchetBy(chainKey, a + b)
  {
    if b > 0 {
      RatchetByAdds(chainKey, a, b - 1);
    }
  }

  lemma KeyAtIsMessageKeyAt(st: Receiver, o: Origin, i: int)
    requires OnChain(st, o) && st.iteration <= i
    ensures KeyAt(st.chainKey.value, st.iteration, i) == MessageKeyAt(o, i)
  {
    RatchetByAdds(Seed(o.seed), st.iteration, i - st.iteration);
  }

  /** The cache as it stands after a jump to `to`, before anything is evicted. */
  ghost function Merged(st: Receiver, to: int): (merged: map<int, MessageKey>)
    requires st.chainKey.Some?
    ensures forall i :: i in merged <==> i in st.skipped || st.iteration < i < to
  {
    st.skipped + Jumped(st.chainKey.value, st.iteration, to)
  }

  /** The chain has moved to `to`, and the cache is the newest part of what it held and jumped over. */
  ghost predicate JumpedTo(st: Receiver, o: Origin, to: int, after: Receiver)
    requires OnChain(st, o)
  {
    && st.iteration < to <= st.iteration + MAX_RATCHET_STEPS
    && after.iteration == to
    && after.chainKey == Some(ChainAt(o, to))
    && IsNewest(after.skipped, Merged(st, to), MAX_SKIPPED_MESSAGE_KEYS)
    && (forall i | i in after.skipped :: after.skipped[i] == MessageKeyAt(o, i))
  }

  lemma MergedKeys(st: Receiver, o: Origin, to: int)
    requires OnChain(st, o)
    ensures var merged := Merged(st, to); forall i | i in merged :: merged[i] == MessageKeyAt(o, i)
  {
    forall i | st.iteration < i < to {
      KeyAtIsMessageKeyAt(st, o, i);
    }
  }

  lemma {:induction false} NewestOnChain(st: Receiver, o: Origin, to: int)
    requires OnChain(st, o)
    ensures var kept := Newest(Merged(st, to), MAX_SKIPPED_MESSAGE_KEYS);
            && IsNewest(kept, Merged(st, to), MAX_SKIPPED_MESSAGE_KEYS)
            && forall i | i in kept :: kept[i] == MessageKeyAt(o, i)
  {
    hide Merged, Newest, MessageKeyAt;
    NewestKeepsTheLargest(Merged(st, to), MAX_SKIPPED_MESSAGE_KEYS);
    MergedKeys(st, o, to);
  }

  lemma {:induction false} AheadJumps(st: Receiver, o: Origin, msg: EncryptedMessage)
    requires OnChain(st, o)
    requires st.iteration < msg.iteration <= st.iteration + MAX_RATCHET_STEPS
    ensures var (after, plaintext) := DecryptAhead(st, Some(o.signer), msg, true);
            if plaintext == "" then after == st else JumpedTo(st, o, msg.iteration, after)
  {
    hide Newest, IsNewest, RatchetBy, Open, Jumped, MessageKeyAt;
    NewestOnChain(st, o, msg.iteration);
    RatchetByAdds(Seed(o.seed), st.iteration, msg.iteration - st.iteration);
  }

  /** A delivery either changes nothing, uses up one cached key, or jumps ahead. */
  lemma {:induction false} DeliveryEffect(st: Receiver, o: Origin, msg: EncryptedMessage)
    requires OnChain(st, o)
    ensures var (after, plaintext) := Decrypt(st, Some(o.signer), msg, true);
            if plaintext == "" then after == st
            else if msg.iteration in st.skipped then after == st.(skipped := st.skipped - {msg.iteration})
            else JumpedTo(st, o, msg.iteration, after)
  {
    hide DecryptAhead, RatchetBy, Open, JumpedTo, OnChain;
    if msg.iteration !in st.skipped && st.iteration < msg.iteration <= st.iteration + MAX_RATCHET_STEPS {
      AheadJumps(st, o, msg);
    }
  }

  /** An accepted message carries what the sender sealed and signed at its iteration. */
  lemma AcceptedIsSealed(st: Receiver, o: Origin, msg: EncryptedMessage, caching: bool)
    requires OnChain(st, o)
    requires Decrypt(st, Some(o.signer), msg, caching).1 != ""
    ensures msg.iteration > 0
    ensures msg.ciphertext == Gcm(MessageKeyAt(o, msg.iteration), msg.iv, Decrypt(st, Some(o.signer), msg, caching).1)
    ensures msg.signature == Ed25519(o.signer, msg.iv, msg.ciphertext)
  {
    if !(caching && msg.iteration in st.skipped) {
      KeyAtIsMessageKeyAt(st, o, msg.iteration);
    }
  }

  lemma {:induction false} CachedStepKeepsOnChain(st: Receiver, o: Origin, msg: EncryptedMessage)
    requires OnChain(st, o)
    ensures OnChain(Decrypt(st, Some(o.signer), msg, true).0, o)
  {
    hide Decrypt, RatchetBy;
    DeliveryEffect(st, o, msg);
    var used := st.skipped - {msg.iteration};
    assert |used| == |used.Keys| && |st.skipped| == |st.skipped.Keys|;
    SubsetSize(used.Keys, st.skipped.Keys);
  }

  lemma StrictStepKeepsOnChain(st: Receiver, o: Origin, msg: EncryptedMessage)
    requires OnChain(st, o) && st.skipped == map[]
    ensures OnChain(Decrypt(st, Some(o.signer), msg, false).0, o)
    ensures Decrypt(st, Some(o.signer), msg, false).0.skipped == map[]
  {
    if msg.iteration > st.iteration {
      RatchetByAdds(Seed(o.seed), st.iteration, msg.iteration - st.iteration);
    }
  }

  /** The strict receiver keeps no keys, so the same invariant serves both. */
  lemma {:induction false} ReceiverOnChain(o: Origin, ds: seq<EncryptedMessage>, caching: bool)
    ensures OnChain(ReceiverAfter(o, ds, caching), o)
    ensures !caching ==> ReceiverAfter(o, ds, caching).skipped == map[]
  {
    hide Decrypt;
    if ds != [] {
      var before := ReceiverAfter(o, ds[..|ds| - 1], caching);
      ReceiverOnChain(o, ds[..|ds| - 1], caching);
      if caching {
        CachedStepKeepsOnChain(before, o, ds[|ds| - 1]);
      } else {
        StrictStepKeepsOnChain(before, o, ds[|ds| - 1]);
      }
    }
  }

  // ---------------------------------------------------------------- safety

  /** The chain is past iteration `i` and no key for it is left. */
  ghost predicate Gone(st: Receiver, i: int) {
    0 < i <= st.iteration && i !in st.skipped
  }

  lemma GoneStays(st: Receiver, o: Origin, msg: EncryptedMessage, i: int)
    requires OnChain(st, o) && Gone(st, i)
    ensures Gone(Decrypt(st, Some(o.signer), msg, true).0, i)
    ensures msg.iteration == i ==> Decrypt(st, Some(o.signer), msg, true).1 == ""
  {
    DeliveryEffect(st, o, msg);
  }

  lemma AcceptedIsGone(st: Receiver, o: Origin, msg: EncryptedMessage)
    requires OnChain(st, o)
    requires Decrypt(st, Some(o.signer), msg, true).1 != ""
    ensures Gone(Decrypt(st, Some(o.signer), msg, true).0, msg.iteration)
  {
    AcceptedIsSealed(st, o, msg, true);
    DeliveryEffect(st, o, msg);
  }

  lemma {:induction false} GoneForGood(o: Origin, ds: seq<EncryptedMessage>, k: nat, l: nat, i: int)
    requires k <= l <= |ds|
    requires Gone(ReceiverAfter(o, ds[..k], true), i)
    ensures Gone(ReceiverAfter(o, ds[..l], true), i)
  {
    if k < l {
      GoneForGood(o, ds, k, l - 1, i);
      ReceiverOnChain(o, ds[..l - 1], true);
      GoneStays(ReceiverAfter(o, ds[..l - 1], true), o, ds[l - 1], i);
      ReceiverStep(o, ds, l - 1, true);
    }
  }

  /** The text is the plaintext of attempt `j`, sent under the iteration the message carries. */
  predicate Carries(o: Origin, attempts: seq<Attempt>, j: int, msg: EncryptedMessage, text: string) {
    && 0 <= j < |attempts|
    && Sent(o, attempts, j).Some?
    && Sent(o, attempts, j).value.iteration == msg.iteration
    && text == attempts[j].plaintext != ""
  }

  /** Delivery `k` produced the plaintext of attempt `j`, at the iteration it was sent at. */
  ghost predicate Delivers(o: Origin, attempts: seq<Attempt>, ds: seq<EncryptedMessage>, k: int, j: int,
                           caching: bool)
  {
    && 0 <= k < |ds|
    && 0 <= j < |attempts|
    && Sent(o, attempts, j).Some?
    && Sent(o, attempts, j).value.iteration == ds[k].iteration
    && Output(o, ds, k, caching) == attempts[j].plaintext != ""
  }

  /** Whatever a reachable receiver accepts, some attempt has sent. */
  lemma AcceptedWasSent(o: Origin, attempts: seq<Attempt>, st: Receiver, msg: EncryptedMessage, caching: bool)
    requires OnChain(st, o) && Authored(o, attempts, msg)
    requires Decrypt(st, Some(o.signer), msg, caching).1 != ""
    ensures exists j :: Carries(o, attempts, j, msg, Decrypt(st, Some(o.signer), msg, caching).1)
  {
    hide Decrypt, OnChain;
    AcceptedIsSealed(st, o, msg, caching);
    var j, sent :| IsSent(o, attempts, j, sent)
      && sent.iv == msg.signature.iv && sent.ciphertext == msg.signature.ciphertext;
    SentShape(o, attempts, j, sent);
    assert Carries(o, attempts, j, msg, Decrypt(st, Some(o.signer), msg, caching).1);
  }

  /** Whatever is delivered, only sent plaintexts come out, under the iteration they were sent at. */
  lemma OnlySentIsOutput(o: Origin, attempts: seq<Attempt>, ds: seq<EncryptedMessage>, k: nat, caching: bool)
    requires Unforged(o, attempts, ds)
    requires k < |ds| && Output(o, ds, k, caching) != ""
    ensures exists j :: Delivers(o, attempts, ds, k, j, caching)
  {
    hide Decrypt, OnChain, Authored;
    ReceiverOnChain(o, ds[..k], caching);
    AcceptedWasSent(o, attempts, ReceiverAfter(o, ds[..k], caching), ds[k], caching);
    var j :| Carries(o, attempts, j, ds[k], Output(o, ds, k, caching));
    assert Delivers(o, attempts, ds, k, j, caching);
  }

  /** No attempt's plaintext comes out twice. */
  lemma {:induction false} OutputAtMostOnce(o: Origin, attempts: seq<Attempt>, ds: seq<EncryptedMessage>,
                                            k: nat, l: nat, j: nat)
    requires Delivers(o, attempts, ds, k, j, true) && Delivers(o, attempts, ds, l, j, true)
    ensures k == l
  {
    if k != l {
      var first, second := if k < l then k else l, if k < l then l else k;
      ReceiverOnChain(o, ds[..first], true);
      AcceptedIsGone(ReceiverAfter(o, ds[..first], true), o, ds[first]);
      ReceiverStep(o, ds, first, true);
      GoneForGood(o, ds, first + 1, second, ds[first].iteration);
      ReceiverOnChain(o, ds[..second], true);
      GoneStays(ReceiverAfter(o, ds[..second], true), o, ds[second], ds[second].iteration);
    }
  }

  // ---------------------------------------------------------------- refinement

  lemma CachedFollowsStrict(cached: Receiver, strict: Receiver, o: Origin, msg: EncryptedMessage)
    requires OnChain(cached, o) && cached.chainKey == strict.chainKey && cached.iteration == strict.iteration
    ensures var (c, text) := Decrypt(cached, Some(o.signer), msg, true);
            var (s, strictText) := Decrypt(strict, Some(o.signer), msg, false);
            && c.chainKey == s.chainKey && c.iteration == s.iteration
            && (strictText != "" ==> text == strictText)
  {
    hide Newest, RatchetBy, Open;
  }

  /** The cached receiver follows the strict one and accepts all it accepts. */
  lemma {:induction false} CachedRefinesStrict(o: Origin, ds: seq<EncryptedMessage>)
    ensures var cached, strict := ReceiverAfter(o, ds, true), ReceiverAfter(o, ds, false);
            cached.chainKey == strict.chainKey && cached.iteration == strict.iteration
    ensures forall k | 0 <= k < |ds| && Output(o, ds, k, false) != "" ::
              Output(o, ds, k, true) == Output(o, ds, k, false)
  {
    hide Decrypt, OnChain;
    if ds != [] {
      var n := |ds| - 1;
      CachedRefinesStrict(o, ds[..n]);
      ReceiverOnChain(o, ds[..n], true);
      CachedFollowsStrict(ReceiverAfter(o, ds[..n], true), ReceiverAfter(o, ds[..n], false), o, ds[n]);
      forall k | 0 <= k < |ds| && Output(o, ds, k, false) != ""
        ensures Output(o, ds, k, true) == Output(o, ds, k, false)
      {
        if k < n {
          assert ds[..n][..k] == ds[..k];
          assert Output(o, ds[..n], k, false) != "";
        }
      }
    }
  }

  // ---------------------------------------------------------------- completeness

  ghost predicate Genuine(o: Origin, attempts: seq<Attempt>, ds: seq<EncryptedMessage>) {
    forall k | 0 <= k < |ds| :: WasSent(o, attempts, ds[k])
  }

  ghost predicate WasSent(o: Origin, attempts: seq<Attempt>, msg: EncryptedMessage) {
    exists j :: IsSent(o, attempts, j, msg)
  }

  predicate Distinct(ds: seq<EncryptedMessage>) {
    forall a, b | 0 <= a < b < |ds| :: ds[a].iteration != ds[b].iteration
  }

  predicate Positive(ds: seq<EncryptedMessage>) {
    forall k | 0 <= k < |ds| :: ds[k].iteration > 0
  }

  /** The largest iteration delivered so far. */
  function Horizon(ds: seq<EncryptedMessage>): int {
    if ds == [] then 0
    else
      var h := Horizon(ds[..|ds| - 1]);
      if ds[|ds| - 1].iteration > h then ds[|ds| - 1].iteration else h
  }

  /**
   * Delivery `k` does not jump more than 2000 iterations and leaves no more than 1000 messages
   * outstanding: the condition the two limits put on the order of delivery.
   */
  predicate Fits(ds: seq<EncryptedMessage>, k: nat)
    requires k < |ds|
  {
    var h := Horizon(ds[..k]);
    ds[k].iteration <= h
    || (ds[k].iteration - h <= 2000 && ds[k].iteration - (k + 1) <= 1000)
  }

  predicate Tolerable(ds: seq<EncryptedMessage>) {
    forall k | 0 <= k < |ds| :: Fits(ds, k)
  }

  function Iterations(ds: seq<EncryptedMessage>): set<int> {
    set k | 0 <= k < |ds| :: ds[k].iteration
  }

  function OneTo(n: int): (s: set<int>)
    ensures forall i :: i in s <==> 0 < i <= n
    ensures |s| == if n <= 0 then 0 else n
    decreases n
  {
    if n <= 0 then {} else OneTo(n - 1) + {n}
  }

  /** Iterations passed over and not yet delivered. */
  function Missing(ds: seq<EncryptedMessage>): set<int> {
    OneTo(Horizon(ds)) - Iterations(ds)
  }

  lemma {:induction false} DistinctIterations(ds: seq<EncryptedMessage>)
    requires Distinct(ds)
    ensures |Iterations(ds)| == |ds|
  {
    if ds == [] {
      assert Iterations(ds) == {};
    } else {
      DistinctIterations(ds[..|ds| - 1]);
      IterationsSnoc(ds);
      assert ds[|ds| - 1].iteration !in Iterations(ds[..|ds| - 1]);
    }
  }

  lemma {:induction false} DeliveredBelowHorizon(ds: seq<EncryptedMessage>)
    requires Distinct(ds) && Positive(ds)
    ensures Horizon(ds) >= 0
    ensures Iterations(ds) <= OneTo(Horizon(ds))
    ensures |Missing(ds)| == Horizon(ds) - |ds|
  {
    hide Distinct;
    DistinctIterations(ds);
    IterationsWithin(ds);
    HorizonNotNegative(ds);
  }

  lemma {:induction false} HorizonNotNegative(ds: seq<EncryptedMessage>)
    ensures Horizon(ds) >= 0
  {
    if ds != [] {
      HorizonNotNegative(ds[..|ds| - 1]);
    }
  }

  lemma IterationsSnoc(ds: seq<EncryptedMessage>)
    requires ds != []
    ensures Iterations(ds) == Iterations(ds[..|ds| - 1]) + {ds[|ds| - 1].iteration}
  {
    var before := ds[..|ds| - 1];
    forall i | i in Iterations(ds)
      ensures i in Iterations(before) + {ds[|ds| - 1].iteration}
    {
      var k :| 0 <= k < |ds| && ds[k].iteration == i;
      if k < |ds| - 1 {
        assert before[k].iteration == i;
      }
    }
    forall i | i in Iterations(before)
      ensures i in Iterations(ds)
    {
      var k :| 0 <= k < |before| && before[k].iteration == i;
      assert ds[k].iteration == i;
    }
  }

  /** The receiver holds exactly the keys of the messages still outstanding. */
  ghost predicate Exact(st: Receiver, o: Origin, ds: seq<EncryptedMessage>) {
    OnChain(st, o) && st.iteration == Horizon(ds) && forall i :: i in st.skipped <==> i in Missing(ds)
  }

  lemma ExactMeansMissing(st: Receiver, o: Origin, ds: seq<EncryptedMessage>)
    ensures Exact(st, o, ds) <==> OnChain(st, o) && st.iteration == Horizon(ds) && st.skipped.Keys == Missing(ds)
  {
    hide OnChain, Missing;
    if forall i :: i in st.skipped <==> i in Missing(ds) {
      assert st.skipped.Keys == Missing(ds);
    }
  }

  lemma GenuineIsPositive(o: Origin, attempts: seq<Attempt>, ds: seq<EncryptedMessage>)
    requires Genuine(o, attempts, ds)
    ensures Positive(ds)
  {
    hide Sent, SenderAfter;
    forall k | 0 <= k < |ds|
      ensures ds[k].iteration > 0
    {
      var j :| IsSent(o, attempts, j, ds[k]);
      SentShape(o, attempts, j, ds[k]);
    }
  }

  /** The message is not a repeat, so it is either still outstanding or ahead of the chain. */
  lemma {:induction false} NextIsOutstandingOrAhead(ds: seq<EncryptedMessage>, k: nat)
    requires k < |ds| && Distinct(ds) && ds[k].iteration > 0
    ensures ds[k].iteration <= Horizon(ds[..k]) <==> ds[k].iteration in Missing(ds[..k])
    ensures Missing(ds[..k + 1]) ==
            if ds[k].iteration <= Horizon(ds[..k]) then Missing(ds[..k]) - {ds[k].iteration}
            else Missing(ds[..k]) + (OneTo(ds[k].iteration - 1) - OneTo(Horizon(ds[..k])))
  {
    assert ds[..k + 1][..k] == ds[..k];
    IterationsSnoc(ds[..k + 1]);
    assert ds[k].iteration !in Iterations(ds[..k]);
    if ds[k].iteration > Horizon(ds[..k]) {
      IterationsWithin(ds[..k]);
    }
  }

  lemma {:induction false} IterationsWithin(ds: seq<EncryptedMessage>)
    ensures forall i | i in Iterations(ds) :: i <= Horizon(ds)
  {
    if ds != [] {
      IterationsWithin(ds[..|ds| - 1]);
      IterationsSnoc(ds);
    }
  }

  /** With the outstanding keys at hand, a genuine message that is not too far ahead opens. */
  lemma {:induction false} GenuineOpens(o: Origin, attempts: seq<Attempt>, ds: seq<EncryptedMessage>, k: nat)
    requires k < |ds| && Distinct(ds) && Genuine(o, attempts, ds)
    requires Exact(ReceiverAfter(o, ds[..k], true), o, ds[..k])
    ensures Output(o, ds, k, true) != "" <==> ds[k].iteration - Horizon(ds[..k]) <= MAX_RATCHET_STEPS
  {
    hide RatchetBy, Sent, Missing, DecryptAhead;
    var j :| IsSent(o, attempts, j, ds[k]);
    SentShape(o, attempts, j, ds[k]);
    NextIsOutstandingOrAhead(ds, k);
    if ds[k].iteration > Horizon(ds[..k]) {
      AheadOpens(o, ds[k], ReceiverAfter(o, ds[..k], true), attempts[j].plaintext);
    }
  }

  lemma AheadOpens(o: Origin, msg: EncryptedMessage, st: Receiver, plaintext: string)
    requires OnChain(st, o) && msg.iteration > st.iteration && msg.iv.size == GCM_IV_SIZE
    requires msg.ciphertext == Gcm(MessageKeyAt(o, msg.iteration), msg.iv, plaintext)
    requires msg.signature == Ed25519(o.signer, msg.iv, msg.ciphertext)
    ensures DecryptAhead(st, Some(o.signer), msg, true).1 == plaintext
  {
    hide RatchetBy, Newest;
    KeyAtIsMessageKeyAt(st, o, msg.iteration);
  }

  lemma OutstandingStep(o: Origin, ds: seq<EncryptedMessage>, k: nat, st: Receiver)
    requires k < |ds| && Distinct(ds) && Positive(ds) && Exact(st, o, ds[..k])
    requires Decrypt(st, Some(o.signer), ds[k], true).1 != "" && ds[k].iteration <= Horizon(ds[..k])
    ensures Exact(Decrypt(st, Some(o.signer), ds[k], true).0, o, ds[..k + 1])
  {
    hide Decrypt, RatchetBy, Missing;
    assert ds[..k + 1][..k] == ds[..k];
    NextIsOutstandingOrAhead(ds, k);
    DeliveryEffect(st, o, ds[k]);
    CachedStepKeepsOnChain(st, o, ds[k]);
    assert Horizon(ds[..k + 1]) == Horizon(ds[..k]);
  }

  lemma NewestOfAll<V>(kept: map<int, V>, m: map<int, V>, limit: nat)
    requires IsNewest(kept, m, limit)
    ensures kept.Keys <= m.Keys
    ensures kept.Keys == m.Keys <==> |m.Keys| <= limit
  {
    assert |kept| == |kept.Keys| && |m| == |m.Keys|;
    assert forall i | i in kept.Keys :: i in m.Keys;
    SubsetSize(kept.Keys, m.Keys);
  }

  lemma MergedIsMissing(ds: seq<EncryptedMessage>, k: nat, st: Receiver)
    requires k < |ds| && Distinct(ds) && Positive(ds) && ds[k].iteration > Horizon(ds[..k])
    requires st.chainKey.Some? && st.iteration == Horizon(ds[..k]) && st.skipped.Keys == Missing(ds[..k])
    ensures Merged(st, ds[k].iteration).Keys == Missing(ds[..k + 1])
  {
    hide Merged, Missing, Distinct, Horizon;
    NextIsOutstandingOrAhead(ds, k);
    DistinctPrefix(ds, k);
    DeliveredBelowHorizon(ds[..k]);
  }

  lemma {:induction false} JumpStep(o: Origin, ds: seq<EncryptedMessage>, k: nat, st: Receiver)
    requires k < |ds| && Distinct(ds) && Positive(ds) && Exact(st, o, ds[..k])
    requires Decrypt(st, Some(o.signer), ds[k], true).1 != "" && ds[k].iteration > Horizon(ds[..k])
    ensures var after := Decrypt(st, Some(o.signer), ds[k], true).0;
            && OnChain(after, o)
            && Horizon(ds[..k + 1]) == ds[k].iteration == after.iteration <= st.iteration + MAX_RATCHET_STEPS
            && after.skipped.Keys <= Missing(ds[..k + 1])
            && (after.skipped.Keys == Missing(ds[..k + 1]) <==> |Missing(ds[..k + 1])| <= MAX_SKIPPED_MESSAGE_KEYS)
  {
    hide Decrypt, Distinct, Positive, ChainAt, Missing, MessageKeyAt, IsNewest, Merged;
    ExactMeansMissing(st, o, ds[..k]);
    assert ds[..k + 1][..k] == ds[..k];
    DeliveryEffect(st, o, ds[k]);
    CachedStepKeepsOnChain(st, o, ds[k]);
    MergedIsMissing(ds, k, st);
    var merged := Merged(st, ds[k].iteration);
    NewestOfAll(Decrypt(st, Some(o.signer), ds[k], true).0.skipped, merged, MAX_SKIPPED_MESSAGE_KEYS);
  }

  /** An accepted delivery leaves exactly the outstanding keys, if and only if it fits. */
  lemma {:induction false} FittingStep(o: Origin, ds: seq<EncryptedMessage>, k: nat)
    requires k < |ds| && Distinct(ds) && Positive(ds)
    requires Exact(ReceiverAfter(o, ds[..k], true), o, ds[..k]) && Output(o, ds, k, true) != ""
    ensures var after := ReceiverAfter(o, ds[..k + 1], true);
            && OnChain(after, o)
            && after.iteration == Horizon(ds[..k + 1])
            && (forall i | i in after.skipped :: i in Missing(ds[..k + 1]))
            && (Fits(ds, k) <==> Exact(after, o, ds[..k + 1]))
  {
    hide Decrypt, OnChain, Missing, Distinct, Positive;
    var st := ReceiverAfter(o, ds[..k], true);
    ReceiverStep(o, ds, k, true);
    ExactMeansMissing(ReceiverAfter(o, ds[..k + 1], true), o, ds[..k + 1]);
    DistinctPrefix(ds, k + 1);
    DeliveredBelowHorizon(ds[..k + 1]);
    if ds[k].iteration <= Horizon(ds[..k]) {
      OutstandingStep(o, ds, k, st);
    } else {
      JumpStep(o, ds, k, st);
    }
  }

  lemma FitsIsWithinJump(ds: seq<EncryptedMessage>, k: nat)
    requires k < |ds| && Fits(ds, k)
    ensures ds[k].iteration - Horizon(ds[..k]) <= MAX_RATCHET_STEPS
  {
  }

  lemma DistinctPrefix(ds: seq<EncryptedMessage>, n: nat)
    requires Distinct(ds) && Positive(ds) && n <= |ds|
    ensures Distinct(ds[..n]) && Positive(ds[..n])
  {
  }

  /** Any duplicate-free order within the two limits is decrypted in full. */
  lemma {:induction false} TolerableOrderIsDecrypted(o: Origin, attempts: seq<Attempt>, ds: seq<EncryptedMessage>,
                                                     n: nat)
    requires Genuine(o, attempts, ds) && Distinct(ds) && n <= |ds|
    requires forall k | 0 <= k < n :: Fits(ds, k)
    ensures Exact(ReceiverAfter(o, ds[..n], true), o, ds[..n])
    ensures forall k | 0 <= k < n :: Output(o, ds, k, true) != ""
  {
    hide Genuine, Distinct, Positive, Exact, Missing, Output, ReceiverAfter, Fits, OnChain;
    if n == 0 {
      assert ds[..n] == [];
      EmptyIsExact(o);
    } else {
      var k := n - 1;
      TolerableOrderIsDecrypted(o, attempts, ds, k);
      GenuineIsPositive(o, attempts, ds);
      GenuineOpens(o, attempts, ds, k);
      FitsIsWithinJump(ds, k);
      FittingStep(o, ds, k);
    }
  }

  lemma EmptyIsExact(o: Origin)
    ensures Exact(ReceiverAfter(o, [], true), o, [])
  {
  }

  /** All messages the sender emitted, in the order it emitted them. */
  function Emitted(o: Origin, attempts: seq<Attempt>): seq<EncryptedMessage> {
    if attempts == [] then []
    else
      var before := Emitted(o, attempts[..|attempts| - 1]);
      var last := Sent(o, attempts, |attempts| - 1);
      if last.Some? then before + [last.value] else before
  }

  /** The deliveries are the sender's messages, each once, in any order. */
  ghost predicate Shuffles(o: Origin, attempts: seq<Attempt>, ds: seq<EncryptedMessage>) {
    multiset(ds) == multiset(Emitted(o, attempts))
  }

  /** No nonce failed to be drawn, so the chain never stepped without a message. */
  predicate Unbroken(attempts: seq<Attempt>) {
    forall j | 0 <= j < |attempts| && attempts[j].plaintext != "" :: attempts[j].iv.Some?
  }

  lemma {:induction false} EmittedIsSent(o: Origin, attempts: seq<Attempt>, msg: EncryptedMessage)
    requires msg in Emitted(o, attempts)
    ensures WasSent(o, attempts, msg)
  {
    var init := attempts[..|attempts| - 1];
    if msg in Emitted(o, init) {
      EmittedIsSent(o, init, msg);
      var j :| IsSent(o, init, j, msg);
      assert attempts[..j] == init[..j];
      assert IsSent(o, attempts, j, msg);
    } else {
      assert IsSent(o, attempts, |attempts| - 1, msg);
    }
  }

  /** An unbroken sender numbers its messages 1, 2, 3, ... */
  lemma {:induction false} EmittedIterations(o: Origin, attempts: seq<Attempt>)
    requires Unbroken(attempts)
    ensures |Emitted(o, attempts)| == SenderAfter(o, attempts).iteration
    ensures forall i | 0 <= i < |Emitted(o, attempts)| :: Emitted(o, attempts)[i].iteration == i + 1
  {
    if attempts != [] {
      var init := attempts[..|attempts| - 1];
      EmittedIterations(o, init);
      SenderOnChain(o, init);
    }
  }

  lemma ShuffledIsGenuine(o: Origin, attempts: seq<Attempt>, ds: seq<EncryptedMessage>)
    requires Shuffles(o, attempts, ds)
    ensures Genuine(o, attempts, ds)
  {
    hide Emitted, WasSent;
    forall k | 0 <= k < |ds|
      ensures WasSent(o, attempts, ds[k])
    {
      assert ds[k] in multiset(ds);
      EmittedIsSent(o, attempts, ds[k]);
    }
  }

  /** Everything an unbroken sender emitted is delivered, so the iterations delivered are 1..n. */
  lemma AllIterationsDelivered(o: Origin, attempts: seq<Attempt>, ds: seq<EncryptedMessage>)
    requires Shuffles(o, attempts, ds) && Unbroken(attempts)
    ensures Iterations(ds) == OneTo(|Emitted(o, attempts)|)
  {
    hide Emitted, SenderAfter;
    var sent := Emitted(o, attempts);
    EmittedIterations(o, attempts);
    forall i | i in Iterations(ds)
      ensures i in OneTo(|sent|)
    {
      var k :| 0 <= k < |ds| && ds[k].iteration == i;
      assert ds[k] in multiset(ds);
      var j :| 0 <= j < |sent| && sent[j] == ds[k];
    }
    forall i | i in OneTo(|sent|)
      ensures i in Iterations(ds)
    {
      assert sent[i - 1] in multiset(sent);
      var k :| 0 <= k < |ds| && ds[k] == sent[i - 1];
    }
  }

  /** As many deliveries as iterations: none is repeated. */
  lemma {:induction false} AsManyIterations(ds: seq<EncryptedMessage>)
    ensures |Iterations(ds)| <= |ds|
    ensures |Iterations(ds)| == |ds| ==> Distinct(ds)
  {
    if ds == [] {
      assert Iterations(ds) == {};
    } else {
      AsManyIterations(ds[..|ds| - 1]);
      IterationsSnoc(ds);
      if |Iterations(ds)| == |ds| {
        assert ds[|ds| - 1].iteration !in Iterations(ds[..|ds| - 1]);
        var init := ds[..|ds| - 1];
        assert forall k | 0 <= k < |init| :: init[k] == ds[k] && ds[k].iteration in Iterations(init);
      }
    }
  }

  lemma ShuffledIsDistinct(o: Origin, attempts: seq<Attempt>, ds: seq<EncryptedMessage>)
    requires Shuffles(o, attempts, ds) && Unbroken(attempts)
    ensures Distinct(ds)
  {
    hide Emitted, Iterations, Distinct;
    AllIterationsDelivered(o, attempts, ds);
    AsManyIterations(ds);
    assert |ds| == |multiset(ds)| == |Emitted(o, attempts)|;
  }

  lemma {:induction false} HorizonIsDelivered(ds: seq<EncryptedMessage>)
    ensures Horizon(ds) > 0 ==> Horizon(ds) in Iterations(ds)
  {
    if ds != [] {
      HorizonIsDelivered(ds[..|ds| - 1]);
      IterationsSnoc(ds);
    }
  }

  lemma IterationsOfPrefix(ds: seq<EncryptedMessage>, n: nat)
    requires n <= |ds|
    ensures Iterations(ds[..n]) <= Iterations(ds)
  {
    forall i | i in Iterations(ds[..n])
      ensures i in Iterations(ds)
    {
      var k :| 0 <= k < n && ds[..n][k].iteration == i;
      assert ds[k].iteration == i;
    }
  }

  /** A message whose key has been evicted is still to come, and will be refused. */
  lemma {:induction false} EvictedIsRefused(o: Origin, ds: seq<EncryptedMessage>, total: nat, n: nat, e: int)
    requires Iterations(ds) == OneTo(total) && n <= |ds|
    requires e in Missing(ds[..n]) && Gone(ReceiverAfter(o, ds[..n], true), e)
    ensures exists l :: n <= l < |ds| && Output(o, ds, l, true) == ""
  {
    hide ReceiverAfter, Decrypt, Gone;
    HorizonIsDelivered(ds[..n]);
    IterationsOfPrefix(ds, n);
    assert e in Iterations(ds);
    var l :| 0 <= l < |ds| && ds[l].iteration == e;
    assert l >= n by {
      assert forall k | 0 <= k < n :: ds[k] == ds[..n][k] && ds[k].iteration in Iterations(ds[..n]);
    }
    GoneForGood(o, ds, n, l, e);
    ReceiverOnChain(o, ds[..l], true);
    GoneStays(ReceiverAfter(o, ds[..l], true), o, ds[l], e);
    assert Output(o, ds, l, true) == "";
  }

  lemma {:induction false} OneIsGone(st: Receiver, o: Origin, ds: seq<EncryptedMessage>) returns (e: int)
    requires OnChain(st, o) && st.iteration == Horizon(ds) && !Exact(st, o, ds)
    requires forall i | i in st.skipped :: i in Missing(ds)
    ensures e in Missing(ds) && Gone(st, e)
  {
    hide OnChain, Iterations;
    e :| e in Missing(ds) && e !in st.skipped;
  }

  /** When 1..total are all delivered once and all decrypted, every delivery fitted. */
  lemma {:induction false} FullDecryptionNeedsTolerableOrder(o: Origin, attempts: seq<Attempt>,
                                                             ds: seq<EncryptedMessage>, total: nat, n: nat)
    requires Genuine(o, attempts, ds) && Distinct(ds) && Iterations(ds) == OneTo(total) && n <= |ds|
    requires forall k | 0 <= k < |ds| :: Output(o, ds, k, true) != ""
    ensures forall k | 0 <= k < n :: Fits(ds, k)
  {
    hide Genuine, Distinct, Output, ReceiverAfter, Fits, OnChain, Missing, Gone, Exact, Iterations, Horizon;
    if n > 0 {
      FullDecryptionNeedsTolerableOrder(o, attempts, ds, total, n - 1);
      TolerableOrderIsDecrypted(o, attempts, ds, n - 1);
      GenuineIsPositive(o, attempts, ds);
      FittingStep(o, ds, n - 1);
      if !Exact(ReceiverAfter(o, ds[..n], true), o, ds[..n]) {
        var e := OneIsGone(ReceiverAfter(o, ds[..n], true), o, ds[..n]);
        EvictedIsRefused(o, ds, total, n, e);
      }
    }
  }

  lemma {:induction false} FullRunEnds(o: Origin, attempts: seq<Attempt>, ds: seq<EncryptedMessage>)
    requires Iterations(ds) == OneTo(SenderAfter(o, attempts).iteration)
    requires Exact(ReceiverAfter(o, ds, true), o, ds)
    ensures var sender := SenderAfter(o, attempts);
            ReceiverAfter(o, ds, true) == Receiver(sender.chainKey, sender.iteration, map[])
  {
    hide ReceiverAfter;
    ExactMeansMissing(ReceiverAfter(o, ds, true), o, ds);
    SenderOnChain(o, attempts);
    IterationsWithin(ds);
    HorizonIsDelivered(ds);
    HorizonNotNegative(ds);
    var total := SenderAfter(o, attempts).iteration;
    assert total > 0 ==> total in Iterations(ds);
    assert Missing(ds) == {};
  }

  /** A genuine message that opens at all opens to the plaintext it was made from. */
  lemma GenuineOutputIsPlaintext(o: Origin, attempts: seq<Attempt>, ds: seq<EncryptedMessage>, k: nat, j: nat)
    requires k < |ds| && IsSent(o, attempts, j, ds[k]) && Output(o, ds, k, true) != ""
    ensures Output(o, ds, k, true) == attempts[j].plaintext
  {
    hide Decrypt, ReceiverAfter, Sent;
    ReceiverOnChain(o, ds[..k], true);
    AcceptedIsSealed(ReceiverAfter(o, ds[..k], true), o, ds[k], true);
    SentShape(o, attempts, j, ds[k]);
  }

  /**
   * The sender's messages, each delivered once and in any order, are all decrypted exactly
   * when the order keeps within the jump limit and the cache limit; the receiver then ends
   * with the sender's own chain key and iteration and nothing left in the cache.
   */
  lemma {:induction false} PermutationDecryptedInFull(o: Origin, attempts: seq<Attempt>, ds: seq<EncryptedMessage>)
    requires Shuffles(o, attempts, ds) && Unbroken(attempts)
    ensures Tolerable(ds) <==> forall k | 0 <= k < |ds| :: Output(o, ds, k, true) != ""
    ensures Tolerable(ds) ==> forall k, j | 0 <= k < |ds| && IsSent(o, attempts, j, ds[k]) ::
              Output(o, ds, k, true) == attempts[j].plaintext
    ensures Tolerable(ds) ==>
              var sender := SenderAfter(o, attempts);
              ReceiverAfter(o, ds, true) == Receiver(sender.chainKey, sender.iteration, map[])
  {
    hide Genuine, Distinct, Shuffles, Unbroken, Output, ReceiverAfter, Fits, Exact, Emitted;
    ShuffledIsGenuine(o, attempts, ds);
    ShuffledIsDistinct(o, attempts, ds);
    AllIterationsDelivered(o, attempts, ds);
    EmittedIterations(o, attempts);
    if forall k | 0 <= k < |ds| :: Output(o, ds, k, true) != "" {
      FullDecryptionNeedsTolerableOrder(o, attempts, ds, |Emitted(o, attempts)|, |ds|);
    }
    if Tolerable(ds) {
      assert ds[..|ds|] == ds;
      TolerableOrderIsDecrypted(o, attempts, ds, |ds|);
      FullRunEnds(o, attempts, ds);
      forall k, j | 0 <= k < |ds| && IsSent(o, attempts, j, ds[k])
        ensures Output(o, ds, k, true) == attempts[j].plaintext
      {
        GenuineOutputIsPlaintext(o, attempts, ds, k, j);
      }
    }
  }
}
