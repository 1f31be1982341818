/**
 * Group end-to-end encryption with sender keys.
 *
 * The sender steps a hash chain once per message.  A receiver steps its own copy forward
 * to the iteration of the message at hand, caches the message keys it jumps over, hands
 * each cached key out once, and keeps at most the newest thousand of them.
 *
 * `GroupSender` and `GroupReceiver` change their state step by step; the functions
 * `Encrypt` and `Decrypt` on values say what one call does.
 */
module GroupE2eeCrypto {
  import opened Wrappers
  import opened SymbolicCrypto
  import opened Collections

  const MAX_RATCHET_STEPS := 2000
  const MAX_SKIPPED_MESSAGE_KEYS: nat := 1000

  datatype ChainKey = Seed(id: nat) | Ratchet(previous: ChainKey)

  datatype MessageKey = MsgKey(chainKey: ChainKey, iteration: int)

  datatype EncryptedMessage = EncryptedMessage(
    keyId: nat,
    iteration: int,
    iv: Iv,
    ciphertext: Ciphertext<MessageKey>,
    signature: Signature<MessageKey>,
    valid: bool)

  /** `None` in a key field stands for bytes of the wrong length. */
  datatype SenderKey = SenderKey(
    keyId: nat,
    chainKey: Option<ChainKey>,
    publicSigningKey: Option<nat>,
    privateSigningKey: Option<nat>,
    iteration: int,
    valid: bool)

  datatype Receiver = Receiver(chainKey: Option<ChainKey>, iteration: int, skipped: map<int, MessageKey>)

  function RatchetBy(chainKey: ChainKey, steps: nat): ChainKey {
    if steps == 0 then chainKey else Ratchet(RatchetBy(chainKey, steps - 1))
  }

  // ---------------------------------------------------------------- sending

  /** The key pair and seed drawn by `generateSenderKey`; all three numbers are fresh. */
  function GenerateSenderKey(keyId: nat, seed: nat, signer: nat): SenderKey {
    SenderKey(keyId, Some(Seed(seed)), Some(signer), Some(signer), 0, true)
  }

  /**
   * One encryption.  `iv` is the nonce drawn for it, `None` when drawing or encrypting
   * fails; such a failure and a failing signature leave the chain one step further.
   */
  function Encrypt(key: SenderKey, plaintext: string, iv: Option<nat>): (SenderKey, Option<EncryptedMessage>) {
    if !key.valid || plaintext == "" || key.chainKey.None? then (key, None)
    else
      var next := key.(chainKey := Some(Ratchet(key.chainKey.value)), iteration := key.iteration + 1);
      if next.iteration < 0 || iv.None? || key.privateSigningKey.None? then (next, None)
      else
        var nonce := Iv(iv.value, GCM_IV_SIZE);
        var ciphertext := Gcm(MsgKey(next.chainKey.value, next.iteration), nonce, plaintext);
        var signature := Ed25519(key.privateSigningKey.value, nonce, ciphertext);
        (next, Some(EncryptedMessage(key.keyId, next.iteration, nonce, ciphertext, signature, true)))
  }

  /** When a message comes of an encryption, and what becomes of the key in any case. */
  lemma EncryptsExactly(key: SenderKey, plaintext: string, iv: Option<nat>)
    ensures var (after, msg) := Encrypt(key, plaintext, iv);
            var steps := key.valid && plaintext != "" && key.chainKey.Some?;
            && (msg.Some? <==> steps && iv.Some? && key.privateSigningKey.Some? && key.iteration >= -1)
            && after.(chainKey := key.chainKey, iteration := key.iteration) == key
            && after.iteration == key.iteration + (if steps then 1 else 0)
            && after.chainKey == if steps then Some(Ratchet(key.chainKey.value)) else key.chainKey
  {
  }

  class GroupSender {
    const keyId: nat
    const publicSigningKey: Option<nat>
    const privateSigningKey: Option<nat>
    const valid: bool
    var chainKey: Option<ChainKey>
    var iteration: int

    ghost function Key(): SenderKey
      reads this
    {
      SenderKey(keyId, chainKey, publicSigningKey, privateSigningKey, iteration, valid)
    }

    constructor (key: SenderKey)
      ensures Key() == key
    {
      keyId, publicSigningKey, privateSigningKey := key.keyId, key.publicSigningKey, key.privateSigningKey;
      valid, chainKey, iteration := key.valid, key.chainKey, key.iteration;
    }

    method EncryptMessage(plaintext: string, iv: Option<nat>) returns (result: Option<EncryptedMessage>)
      modifies this
      ensures (Key(), result) == Encrypt(old(Key()), plaintext, iv)
    {
      result := None;
      if !valid || plaintext == "" || chainKey.None? {
        return;
      }
      chainKey := Some(Ratchet(chainKey.value));
      iteration := iteration + 1;
      if iteration < 0 || iv.None? {
        return;
      }
      var nonce := Iv(iv.value, GCM_IV_SIZE);
      var ciphertext := Gcm(MsgKey(chainKey.value, iteration), nonce, plaintext);
      if privateSigningKey.None? {
        return;
      }
      var signature := Ed25519(privateSigningKey.value, nonce, ciphertext);
      result := Some(EncryptedMessage(keyId, iteration, nonce, ciphertext, signature, true));
    }
  }

  // ---------------------------------------------------------------- receiving

  /** What decryption under `key` followed by the signature check yields, "" on failure. */
  function Open(key: MessageKey, publicSigningKey: Option<nat>, msg: EncryptedMessage): string {
    if Verify(publicSigningKey, msg.iv, msg.ciphertext, msg.signature)
    then AesGcmDecrypt(key, msg.iv, msg.ciphertext)
    else ""
  }

  predicate WellFormed(st: Receiver, msg: EncryptedMessage) {
    && msg.valid
    && msg.iv.size == GCM_IV_SIZE
    && msg.ciphertext.Size() >= GCM_TAG_SIZE
    && msg.signature.Size() == ED25519_SIGNATURE_SIZE
    && msg.iteration > 0
    && st.chainKey.Some?
    && st.iteration >= 0
  }

  /** The message key of iteration `i` on a chain that is at iteration `from`. */
  function KeyAt(chainKey: ChainKey, from: int, i: int): MessageKey
    requires from <= i
  {
    MsgKey(RatchetBy(chainKey, i - from), i)
  }

  /** The message keys strictly between two iterations of a chain that is at `from`. */
  ghost function Jumped(chainKey: ChainKey, from: int, to: int): map<int, MessageKey> {
    map i | from < i < to :: KeyAt(chainKey, from, i)
  }

  /** The smallest key of a map, which is where an ordered map's iteration begins. */
  ghost predicate IsOldest<V>(oldest: int, m: map<int, V>) {
    oldest in m && forall i | i in m :: oldest <= i
  }

  lemma OldestExists<V>(m: map<int, V>)
    requires m != map[]
    ensures exists oldest :: IsOldest(oldest, m)
  {
    LeastExists(m.Keys);
    var oldest :| IsLeast(oldest, m.Keys);
    assert IsOldest(oldest, m);
  }

  ghost function Oldest<V>(m: map<int, V>): (oldest: int)
    requires m != map[]
    ensures IsOldest(oldest, m)
  {
    OldestExists(m);
    var oldest :| IsOldest(oldest, m);
    oldest
  }

  /** Drops the oldest entry until no more than `limit` are left. */
  ghost function Newest<V>(m: map<int, V>, limit: nat): map<int, V>
    decreases |m|
  {
    if |m| <= limit then m else Newest(m - {Oldest(m)}, limit)
  }

  /** `kept` holds the `limit` largest iterations of `m`, with their keys. */
  ghost predicate IsNewest<V>(kept: map<int, V>, m: map<int, V>, limit: nat) {
    && |kept| == (if |m| <= limit then |m| else limit)
    && (forall i | i in kept :: i in m && kept[i] == m[i])
    && (forall i, j | i in kept && j in m && j !in kept :: j < i)
  }

  lemma {:induction false} NewestKeepsTheLargest<V>(m: map<int, V>, limit: nat)
    ensures IsNewest(Newest(m, limit), m, limit)
    ensures forall i | i in Newest(m, limit) :: i in m && Newest(m, limit)[i] == m[i]
    decreases |m|
  {
    if |m| > limit {
      var rest := m - {Oldest(m)};
      assert m.Keys == rest.Keys + {Oldest(m)};
      NewestKeepsTheLargest(rest, limit);
    }
  }

  /** A message whose iteration is cached: open it with that key and use the key up. */
  function DecryptCached(st: Receiver, publicSigningKey: Option<nat>, msg: EncryptedMessage): (Receiver, string)
    requires msg.iteration in st.skipped
  {
    var plaintext := Open(st.skipped[msg.iteration], publicSigningKey, msg);
    (if plaintext == "" then st else st.(skipped := st.skipped - {msg.iteration}), plaintext)
  }

  /** A message ahead of the chain: step the chain to it, caching the keys jumped over. */
  ghost function DecryptAhead(st: Receiver, publicSigningKey: Option<nat>, msg: EncryptedMessage, caching: bool)
    : (Receiver, string)
    requires st.chainKey.Some? && st.iteration < msg.iteration
  {
    var plaintext := Open(KeyAt(st.chainKey.value, st.iteration, msg.iteration), publicSigningKey, msg);
    if plaintext == "" then (st, "")
    else
      var skipped := if !caching then st.skipped
                     else Newest(st.skipped + Jumped(st.chainKey.value, st.iteration, msg.iteration),
                                 MAX_SKIPPED_MESSAGE_KEYS);
      (Receiver(Some(RatchetBy(st.chainKey.value, msg.iteration - st.iteration)), msg.iteration, skipped), plaintext)
  }

  /**
   * One delivery.  `caching` is false for a receiver that passes no key cache.
   * A rejected delivery yields "" and the unchanged state.
   */
  ghost function Decrypt(st: Receiver, publicSigningKey: Option<nat>, msg: EncryptedMessage, caching: bool)
    : (Receiver, string)
  {
    if !WellFormed(st, msg) then (st, "")
    else if caching && msg.iteration in st.skipped then DecryptCached(st, publicSigningKey, msg)
    else if msg.iteration <= st.iteration || msg.iteration - st.iteration > MAX_RATCHET_STEPS then (st, "")
    else DecryptAhead(st, publicSigningKey, msg, caching)
  }

  class GroupReceiver {
    var chainKey: Option<ChainKey>
    var iteration: int
    var skippedKeys: map<int, MessageKey>

    ghost function State(): Receiver
      reads this
    {
      Receiver(chainKey, iteration, skippedKeys)
    }

    constructor (chainKey: Option<ChainKey>, iteration: int, skippedKeys: map<int, MessageKey>)
      ensures State() == Receiver(chainKey, iteration, skippedKeys)
    {
      this.chainKey, this.iteration, this.skippedKeys := chainKey, iteration, skippedKeys;
    }

    method DecryptMessage(publicSigningKey: Option<nat>, msg: EncryptedMessage, caching: bool)
      returns (plaintext: string)
      modifies this
      ensures (State(), plaintext) == Decrypt(old(State()), publicSigningKey, msg, caching)
    {
      if !msg.valid || msg.iv.size != GCM_IV_SIZE || msg.ciphertext.Size() < GCM_TAG_SIZE
         || msg.signature.Size() != ED25519_SIGNATURE_SIZE || msg.iteration <= 0
         || chainKey.None? || iteration < 0
      {
        return "";
      }
      if caching && msg.iteration in skippedKeys {
        plaintext := DecryptWithCachedKey(publicSigningKey, msg);
        return;
      }
      if msg.iteration <= iteration {
        return "";
      }
      if msg.iteration - iteration > MAX_RATCHET_STEPS {
        return "";
      }
      plaintext := DecryptByRatcheting(publicSigningKey, msg, caching);
    }

    method DecryptWithCachedKey(publicSigningKey: Option<nat>, msg: EncryptedMessage) returns (plaintext: string)
      requires msg.iteration in skippedKeys
      modifies this`skippedKeys
      ensures (State(), plaintext) == DecryptCached(old(State()), publicSigningKey, msg)
    {
      plaintext := AesGcmDecrypt(skippedKeys[msg.iteration], msg.iv, msg.ciphertext);
      if plaintext == "" {
        return;
      }
      if !Verify(publicSigningKey, msg.iv, msg.ciphertext, msg.signature) {
        return "";
      }
      skippedKeys := skippedKeys - {msg.iteration};
    }

    method DecryptByRatcheting(publicSigningKey: Option<nat>, msg: EncryptedMessage, caching: bool)
      returns (plaintext: string)
      requires chainKey.Some? && iteration < msg.iteration
      modifies this
      ensures (State(), plaintext) == DecryptAhead(old(State()), publicSigningKey, msg, caching)
    {
      hide Newest, Jumped, RatchetBy;
      var currentChainKey, pending := FastForward(msg.iteration, caching);
      plaintext := AesGcmDecrypt(MsgKey(currentChainKey, msg.iteration), msg.iv, msg.ciphertext);
      if plaintext == "" {
        return;
      }
      if !Verify(publicSigningKey, msg.iv, msg.ciphertext, msg.signature) {
        return "";
      }
      // Only now, with the message authenticated, is any state committed.
      chainKey := Some(currentChainKey);
      iteration := msg.iteration;
      if caching {
        skippedKeys := skippedKeys + pending;
        EvictOldest();
      }
    }

    /** The ratchet loop: walks a copy of the chain to `target`, setting aside the keys jumped over. */
    method FastForward(target: int, caching: bool)
      returns (currentChainKey: ChainKey, pending: map<int, MessageKey>)
      requires chainKey.Some? && iteration < target
      ensures currentChainKey == RatchetBy(chainKey.value, target - iteration)
      ensures pending == if caching then Jumped(chainKey.value, iteration, target) else map[]
    {
      currentChainKey := chainKey.value;
      var currentIteration := iteration;
      pending := map[];
      while currentIteration < target
        invariant iteration <= currentIteration <= target
        invariant currentChainKey == RatchetBy(chainKey.value, currentIteration - iteration)
        invariant !caching ==> pending == map[]
        invariant caching ==> forall i :: i in pending <==> iteration < i <= currentIteration && i < target
        invariant forall i | i in pending :: pending[i] == KeyAt(chainKey.value, iteration, i)
      {
        currentChainKey := Ratchet(currentChainKey);
        currentIteration := currentIteration + 1;
        if currentIteration < target && caching {
          pending := pending[currentIteration := MsgKey(currentChainKey, currentIteration)];
        }
      }
    }

    /** The capacity loop: drops the smallest iteration while the cache is too large. */
    method EvictOldest()
      modifies this`skippedKeys
      ensures skippedKeys == Newest(old(skippedKeys), MAX_SKIPPED_MESSAGE_KEYS)
    {
      while |skippedKeys| > MAX_SKIPPED_MESSAGE_KEYS
        invariant Newest(skippedKeys, MAX_SKIPPED_MESSAGE_KEYS) == Newest(old(skippedKeys), MAX_SKIPPED_MESSAGE_KEYS)
        decreases |skippedKeys|
      {
        OldestExists(skippedKeys);
        var oldest :| oldest in skippedKeys && forall i | i in skippedKeys :: oldest <= i;
        skippedKeys := skippedKeys - {oldest};
      }
    }
  }
}
