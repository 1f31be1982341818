/**
 * One-to-one encryption: a message is sealed separately for every device of the recipient,
 * under a fresh ephemeral key agreed with the device's prekey and identity key, with a copy
 * for the sending device under its own identity key.
 */
module PairwiseCrypto {
  import opened Wrappers
  import opened SymbolicCrypto

  const SELF_COPY_PREKEY_ID := 0

  /** `Malformed` is a byte string that is no X25519 public key. */
  datatype PublicKey = Pub(secret: nat) | Malformed

  /** The secret two X25519 keys agree on, whichever side computes it. */
  datatype Agreement = Agreement(low: nat, high: nat)

  /** A message key, derived from the agreements concatenated. */
  datatype SharedKey = SharedKey(agreements: seq<Agreement>)

  function Ecdh(secret: nat, peer: PublicKey): seq<Agreement> {
    match peer
    case Malformed => []
    case Pub(other) => [if secret <= other then Agreement(secret, other) else Agreement(other, secret)]
  }

  lemma EcdhCommutes(a: nat, b: nat)
    ensures Ecdh(a, Pub(b)) == Ecdh(b, Pub(a))
  {
  }

  datatype Bundle = Bundle(device: string, prekeyId: int, identityPub: PublicKey, prekeyPub: PublicKey)

  datatype Entry = Entry(device: string, prekeyId: int, ephemeral: PublicKey, iv: Iv, ciphertext: Ciphertext<SharedKey>)

  /** The ephemeral secret and nonce drawn for an entry, `None` when drawing or sealing fails. */
  datatype Draw = Draw(ephemeral: nat, iv: nat)

  /** A message body: legacy text, or an envelope, which may fail to decode. */
  datatype Content = Text(text: string) | Envelope(entries: seq<Entry>)

  /** What a device holds: no identity while its key is not valid. */
  datatype Local = Local(device: string, identity: Option<nat>, prekeys: seq<nat>)

  datatype Result = Result(local: Local, text: string, undecryptable: bool)

  // ---------------------------------------------------------------- sealing

  function Seal(device: string, prekeyId: int, shared: seq<Agreement>, draw: Draw, plaintext: string): Entry {
    var iv := Iv(draw.iv, GCM_IV_SIZE);
    Entry(device, prekeyId, Pub(draw.ephemeral), iv, Gcm(SharedKey(shared), iv, plaintext))
  }

  function SealForBundle(b: Bundle, draw: Option<Draw>, plaintext: string): Option<Entry> {
    if b.device == "" || b.prekeyId <= 0 || draw.None? then None
    else
      var shared := Ecdh(draw.value.ephemeral, b.prekeyPub) + Ecdh(draw.value.ephemeral, b.identityPub);
      if |shared| != 2 then None else Some(Seal(b.device, b.prekeyId, shared, draw.value, plaintext))
  }

  function SealForBundles(bundles: seq<Bundle>, draws: seq<Option<Draw>>, plaintext: string): Option<seq<Entry>>
    requires |draws| >= |bundles|
    decreases |bundles|
  {
    if bundles == [] then Some([])
    else
      var n := |bundles| - 1;
      var before := SealForBundles(bundles[..n], draws[..n], plaintext);
      var last := SealForBundle(bundles[n], draws[n], plaintext);
      if before.None? || last.None? then None else Some(before.value + [last.value])
  }

  /** The copy for the sending device, left out when it has no identity or the draw fails. */
  function SelfCopy(sender: Local, draw: Option<Draw>, plaintext: string): seq<Entry> {
    if sender.identity.None? || sender.device == "" || draw.None? then []
    else
      var dh := Ecdh(draw.value.ephemeral, Pub(sender.identity.value));
      [Seal(sender.device, SELF_COPY_PREKEY_ID, dh + dh, draw.value, plaintext)]
  }

  function EncryptForUser(sender: Local, bundles: seq<Bundle>, draws: seq<Option<Draw>>, plaintext: string)
    : Option<seq<Entry>>
    requires |draws| == |bundles| + 1
  {
    var sealed := SealForBundles(bundles, draws[..|bundles|], plaintext);
    if sealed.None? then None
    else
      var entries := sealed.value + SelfCopy(sender, draws[|bundles|], plaintext);
      if entries == [] then None else Some(entries)
  }

  // ---------------------------------------------------------------- opening

  function OpenWith(shared: seq<Agreement>, e: Entry): string {
    if shared == [] then "" else AesGcmDecrypt(SharedKey(shared), e.iv, e.ciphertext)
  }

  function OpenWithPrekey(prekey: nat, identity: nat, e: Entry): string {
    OpenWith(Ecdh(prekey, e.ephemeral) + Ecdh(identity, e.ephemeral), e)
  }

  function OpenSelfCopy(identity: nat, e: Entry): string {
    var dh := Ecdh(identity, e.ephemeral);
    OpenWith(dh + dh, e)
  }

  /** The position of the first prekey that opens the entry; the number of prekeys if none does. */
  function FirstOpening(prekeys: seq<nat>, identity: nat, e: Entry): (i: nat)
    ensures i <= |prekeys|
    ensures i < |prekeys| ==> OpenWithPrekey(prekeys[i], identity, e) != ""
    ensures forall j | 0 <= j < i :: OpenWithPrekey(prekeys[j], identity, e) == ""
  {
    if prekeys == [] then 0
    else if OpenWithPrekey(prekeys[0], identity, e) != "" then 0
    else
      var i := FirstOpening(prekeys[1..], identity, e);
      assert forall j | 1 <= j < 1 + i :: prekeys[j] == prekeys[1..][j - 1];
      1 + i
  }

  function WithoutPrekey(local: Local, i: nat): Local
    requires i < |local.prekeys|
  {
    local.(prekeys := local.prekeys[..i] + local.prekeys[i + 1..])
  }

  /** One entry: its plaintext, "" if this device cannot open it; an opening prekey is used up. */
  function TryEntry(local: Local, e: Entry): (Local, string) {
    if e.device != local.device || local.identity.None? then (local, "")
    else if e.prekeyId == SELF_COPY_PREKEY_ID then (local, OpenSelfCopy(local.identity.value, e))
    else
      var i := FirstOpening(local.prekeys, local.identity.value, e);
      if i == |local.prekeys| then (local, "")
      else (WithoutPrekey(local, i), OpenWithPrekey(local.prekeys[i], local.identity.value, e))
  }

  function TryEntries(local: Local, entries: seq<Entry>): (Local, string) {
    if entries == [] then (local, "")
    else
      var first := TryEntry(local, entries[0]);
      if first.1 != "" then first else TryEntries(local, entries[1..])
  }

  predicate Decodes(entries: seq<Entry>) {
    && entries != []
    && forall e | e in entries ::
         e.device != "" && e.prekeyId >= 0 && e.ephemeral.Pub? && e.iv.size == GCM_IV_SIZE
         && e.ciphertext.Size() >= GCM_TAG_SIZE
  }

  function DecryptIncoming(local: Local, content: Content): Result {
    match content
    case Text(text) => Result(local, text, false)
    case Envelope(entries) =>
      if !Decodes(entries) then Result(local, "", true)
      else
        var (after, text) := TryEntries(local, entries);
        Result(after, text, text == "")
  }

  class Device {
    const device: string
    const identity: Option<nat>
    var prekeys: seq<nat>

    ghost function State(): Local
      reads this
    {
      Local(device, identity, prekeys)
    }

    constructor (local: Local)
      ensures State() == local
    {
      device, identity, prekeys := local.device, local.identity, local.prekeys;
    }

    method Encrypt(bundles: seq<Bundle>, draws: seq<Option<Draw>>, plaintext: string)
      returns (envelope: Option<seq<Entry>>)
      requires |draws| == |bundles| + 1
      ensures envelope == EncryptForUser(State(), bundles, draws, plaintext)
    {
      var entries: seq<Entry> := [];
      for i := 0 to |bundles|
        invariant SealForBundles(bundles[..i], draws[..i], plaintext) == Some(entries)
      {
        assert bundles[..i + 1][..i] == bundles[..i] && draws[..i + 1][..i] == draws[..i];
        var entry := SealForBundle(bundles[i], draws[i], plaintext);
        if entry.None? {
          FailureStays(bundles, draws, plaintext, i + 1);
          return None;
        }
        entries := entries + [entry.value];
      }
      assert bundles[..|bundles|] == bundles;
      entries := entries + SelfCopy(Local(device, identity, prekeys), draws[|bundles|], plaintext);
      return if entries == [] then None else Some(entries);
    }

    method DecryptIncomingContent(content: Content) returns (text: string, undecryptable: bool)
      modifies this
      ensures Result(State(), text, undecryptable) == DecryptIncoming(old(State()), content)
    {
      match content
      case Text(legacy) =>
        return legacy, false;
      case Envelope(entries) =>
        if !Decodes(entries) {
          return "", true;
        }
        for i := 0 to |entries|
          invariant State() == old(State())
          invariant TryEntries(State(), entries) == TryEntries(State(), entries[i..])
        {
          assert entries[i..][1..] == entries[i + 1..];
          text := DecryptEntry(entries[i]);
          if text != "" {
            return text, false;
          }
        }
        return "", true;
    }

    /** An entry for this device: the self copy with the identity key, any other with each prekey in turn. */
    method DecryptEntry(e: Entry) returns (text: string)
      modifies this
      ensures (State(), text) == TryEntry(old(State()), e)
    {
      if e.device != device || identity.None? {
        return "";
      }
      if e.prekeyId == SELF_COPY_PREKEY_ID {
        return OpenSelfCopy(identity.value, e);
      }
      for i := 0 to |prekeys|
        invariant prekeys == old(prekeys)
        invariant forall j | 0 <= j < i :: OpenWithPrekey(prekeys[j], identity.value, e) == ""
      {
        text := OpenWithPrekey(prekeys[i], identity.value, e);
        if text != "" {
          prekeys := prekeys[..i] + prekeys[i + 1..];
          return;
        }
      }
      text := "";
    }
  }

  lemma {:induction false} FailureStays(bundles: seq<Bundle>, draws: seq<Option<Draw>>, plaintext: string, i: nat)
    requires i <= |bundles| < |draws| && SealForBundles(bundles[..i], draws[..i], plaintext).None?
    ensures SealForBundles(bundles, draws[..|bundles|], plaintext).None?
    decreases |bundles|
  {
    if i < |bundles| {
      var n := |bundles| - 1;
      assert bundles[..n][..i] == bundles[..i] && draws[..n][..i] == draws[..i];
      assert draws[..|bundles|][..n] == draws[..n];
      FailureStays(bundles[..n], draws, plaintext, i);
    } else {
      assert bundles[..i] == bundles;
    }
  }

  // ---------------------------------------------------------------- round trip

  /** The device was meant by the bundle: it holds the identity secret and this prekey secret. */
  predicate Addresses(b: Bundle, d: Local, prekey: nat) {
    && d.identity.Some?
    && b.device == d.device
    && b.identityPub == Pub(d.identity.value)
    && b.prekeyPub == Pub(prekey)
    && prekey in d.prekeys
  }

  predicate Reaches(b: Bundle, d: Local) {
    exists prekey :: prekey in d.prekeys && Addresses(b, d, prekey)
  }

  predicate Distinct(prekeys: seq<nat>) {
    forall i, j | 0 <= i < j < |prekeys| :: prekeys[i] != prekeys[j]
  }

  /** A prekey opens a bundle's entry exactly when both secrets are the ones it was sealed to. */
  lemma PrekeyOpensExactly(b: Bundle, draw: Option<Draw>, plaintext: string, prekey: nat, identity: nat)
    requires plaintext != "" && SealForBundle(b, draw, plaintext).Some?
    ensures OpenWithPrekey(prekey, identity, SealForBundle(b, draw, plaintext).value) ==
            if b.prekeyPub == Pub(prekey) && b.identityPub == Pub(identity) then plaintext else ""
  {
    var e := draw.value.ephemeral;
    var sealed := Ecdh(e, b.prekeyPub) + Ecdh(e, b.identityPub);
    var tried := Ecdh(prekey, Pub(e)) + Ecdh(identity, Pub(e));
    assert sealed[0] == Ecdh(e, b.prekeyPub)[0] && sealed[1] == Ecdh(e, b.identityPub)[0];
    assert tried[0] == Ecdh(prekey, Pub(e))[0] && tried[1] == Ecdh(identity, Pub(e))[0];
    EcdhCommutes(e, prekey);
    EcdhCommutes(e, identity);
  }

  /** The device makes of a bundle's entry: the plaintext and one prekey fewer if it is reached, nothing if not. */
  lemma {:induction false} BundleEntryOpens(b: Bundle, draw: Option<Draw>, plaintext: string, d: Local)
    requires plaintext != "" && SealForBundle(b, draw, plaintext).Some?
    ensures var (after, text) := TryEntry(d, SealForBundle(b, draw, plaintext).value);
            if Reaches(b, d) then text == plaintext && RemovesOnly(d, after, b) else text == "" && after == d
  {
    var entry := SealForBundle(b, draw, plaintext).value;
    if b.device == d.device && d.identity.Some? {
      forall prekey | prekey in d.prekeys {
        PrekeyOpensExactly(b, draw, plaintext, prekey, d.identity.value);
      }
      var i := FirstOpening(d.prekeys, d.identity.value, entry);
      if i < |d.prekeys| {
        assert d.prekeys[i] in d.prekeys && Addresses(b, d, d.prekeys[i]);
      }
    }
  }

  /** Exactly the prekey the bundle names is gone; everything else is as before and in the same order. */
  ghost predicate RemovesOnly(before: Local, after: Local, b: Bundle) {
    && after == before.(prekeys := after.prekeys)
    && exists i :: 0 <= i < |before.prekeys|
         && b.prekeyPub == Pub(before.prekeys[i])
         && after.prekeys == before.prekeys[..i] + before.prekeys[i + 1..]
         && (Distinct(before.prekeys) ==> before.prekeys[i] !in after.prekeys)
  }

  lemma SelfCopyOpensExactly(sender: Local, draw: Option<Draw>, plaintext: string, d: Local)
    requires plaintext != "" && SelfCopy(sender, draw, plaintext) != []
    ensures TryEntry(d, SelfCopy(sender, draw, plaintext)[0]) ==
            (d, if d.device == sender.device && d.identity == sender.identity then plaintext else "")
  {
    if d.identity.Some? {
      var e := draw.value.ephemeral;
      EcdhCommutes(e, d.identity.value);
      var sealed, tried := Ecdh(e, Pub(sender.identity.value)), Ecdh(d.identity.value, Pub(e));
      assert (sealed + sealed)[0] == sealed[0] && (tried + tried)[0] == tried[0];
    }
  }

  lemma {:induction false} SealedEntries(bundles: seq<Bundle>, draws: seq<Option<Draw>>, plaintext: string)
    requires |draws| >= |bundles| && SealForBundles(bundles, draws, plaintext).Some?
    ensures var entries := SealForBundles(bundles, draws, plaintext).value;
            |entries| == |bundles| && forall k | 0 <= k < |bundles| ::
              SealForBundle(bundles[k], draws[k], plaintext) == Some(entries[k])
    decreases |bundles|
  {
    if bundles != [] {
      var n := |bundles| - 1;
      SealedEntries(bundles[..n], draws[..n], plaintext);
    }
  }

  lemma {:induction false} SkipUnopened(d: Local, entries: seq<Entry>, k: nat)
    requires k <= |entries| && forall i | 0 <= i < k :: TryEntry(d, entries[i]).1 == ""
    ensures TryEntries(d, entries) == TryEntries(d, entries[k..])
    decreases k
  {
    if k > 0 {
      assert entries[k - 1..][1..] == entries[k..];
      SkipUnopened(d, entries, k - 1);
    } else {
      assert entries[k..] == entries;
    }
  }

  lemma EncryptedDecodes(sender: Local, bundles: seq<Bundle>, draws: seq<Option<Draw>>, plaintext: string)
    requires |draws| == |bundles| + 1 && EncryptForUser(sender, bundles, draws, plaintext).Some?
    ensures Decodes(EncryptForUser(sender, bundles, draws, plaintext).value)
  {
    SealedEntries(bundles, draws[..|bundles|], plaintext);
    var entries := EncryptForUser(sender, bundles, draws, plaintext).value;
    forall i | 0 <= i < |entries|
      ensures entries[i].device != "" && entries[i].prekeyId >= 0 && entries[i].ephemeral.Pub?
              && entries[i].iv.size == GCM_IV_SIZE && entries[i].ciphertext.Size() >= GCM_TAG_SIZE
    {
    }
  }

  /**
   * What any device makes of the envelope.  The first bundle that reaches it gives it the
   * plaintext and costs it exactly that bundle's prekey, whatever other entries carry its
   * device id; failing that the sender's own identity opens the self copy and changes
   * nothing; any other device gets nothing and keeps everything.
   */
  lemma {:induction false} EnvelopeRoundTrip(sender: Local, bundles: seq<Bundle>, draws: seq<Option<Draw>>,
                                             plaintext: string, d: Local)
    requires |draws| == |bundles| + 1 && plaintext != ""
    requires EncryptForUser(sender, bundles, draws, plaintext).Some?
    ensures var entries := EncryptForUser(sender, bundles, draws, plaintext).value;
            var r := DecryptIncoming(d, Envelope(entries));
            if exists k :: 0 <= k < |bundles| && Reaches(bundles[k], d) then
              exists k :: FirstToReach(bundles, k, d)
                && r == Result(r.local, plaintext, false) && RemovesOnly(d, r.local, bundles[k])
            else if SelfCopy(sender, draws[|bundles|], plaintext) != []
                    && d.device == sender.device && d.identity == sender.identity then
              r == Result(d, plaintext, false)
            else r == Result(d, "", true)
  {
    hide TryEntry, RemovesOnly, Reaches, SealForBundle, Decodes, OpenWith;
    var entries := EncryptForUser(sender, bundles, draws, plaintext).value;
    EncryptedDecodes(sender, bundles, draws, plaintext);
    SealedEntries(bundles, draws[..|bundles|], plaintext);
    forall i | 0 <= i < |bundles|
      ensures var (after, text) := TryEntry(d, entries[i]);
              if Reaches(bundles[i], d) then text == plaintext && RemovesOnly(d, after, bundles[i])
              else text == "" && after == d
    {
      BundleEntryOpens(bundles[i], draws[i], plaintext, d);
    }
    if exists k :: 0 <= k < |bundles| && Reaches(bundles[k], d) {
      var k := FirstReaching(bundles, d);
      SkipUnopened(d, entries, k);
    } else {
      SkipUnopened(d, entries, |bundles|);
      if SelfCopy(sender, draws[|bundles|], plaintext) != [] {
        SelfCopyOpensExactly(sender, draws[|bundles|], plaintext, d);
      }
    }
  }

  ghost predicate FirstToReach(bundles: seq<Bundle>, k: int, d: Local) {
    0 <= k < |bundles| && Reaches(bundles[k], d) && forall i | 0 <= i < k :: !Reaches(bundles[i], d)
  }

  lemma {:induction false} FirstReaching(bundles: seq<Bundle>, d: Local) returns (k: nat)
    requires exists k :: 0 <= k < |bundles| && Reaches(bundles[k], d)
    ensures FirstToReach(bundles, k, d)
  {
    k := 0;
    while !Reaches(bundles[k], d)
      invariant 0 <= k < |bundles|
      invariant forall i | 0 <= i < k :: !Reaches(bundles[i], d)
      decreases |bundles| - k
    {
      k := k + 1;
    }
  }

  /** The sender, whom no bundle of another account addresses, can read its own message again and again. */
  lemma SenderReadsItsCopy(sender: Local, bundles: seq<Bundle>, draws: seq<Option<Draw>>, plaintext: string)
    requires |draws| == |bundles| + 1 && plaintext != ""
    requires sender.identity.Some? && sender.device != "" && draws[|bundles|].Some?
    requires EncryptForUser(sender, bundles, draws, plaintext).Some?
    requires forall b | b in bundles :: b.identityPub != Pub(sender.identity.value)
    ensures var entries := EncryptForUser(sender, bundles, draws, plaintext).value;
            DecryptIncoming(sender, Envelope(entries)) == Result(sender, plaintext, false)
  {
    SealedEntries(bundles, draws[..|bundles|], plaintext);
    forall k | 0 <= k < |bundles|
      ensures !Reaches(bundles[k], sender)
    {
      assert bundles[k] in bundles;
    }
    EnvelopeRoundTrip(sender, bundles, draws, plaintext, sender);
  }

  // ---------------------------------------------------------------- when there is an envelope

  /** The bundle and the draw are good for an entry. */
  predicate Sealable(b: Bundle, draw: Option<Draw>) {
    b.device != "" && b.prekeyId > 0 && b.prekeyPub.Pub? && b.identityPub.Pub? && draw.Some?
  }

  /** The sender can add a copy for itself. */
  predicate Copyable(sender: Local, draw: Option<Draw>) {
    sender.identity.Some? && sender.device != "" && draw.Some?
  }

  lemma {:induction false} SealsExactly(bundles: seq<Bundle>, draws: seq<Option<Draw>>, plaintext: string)
    requires |draws| >= |bundles|
    ensures SealForBundles(bundles, draws, plaintext).Some? <==>
            forall k | 0 <= k < |bundles| :: Sealable(bundles[k], draws[k])
    decreases |bundles|
  {
    if bundles != [] {
      var n := |bundles| - 1;
      SealsExactly(bundles[..n], draws[..n], plaintext);
    }
  }

  /**
   * There is an envelope if and only if every bundle can be sealed for, and there is a bundle
   * or a copy.  It has one entry for each bundle, under its device and prekey id and in their
   * order, and then the copy under prekey id 0 if there can be one.
   */
  lemma {:induction false} EncryptsExactly(sender: Local, bundles: seq<Bundle>, draws: seq<Option<Draw>>,
                                           plaintext: string)
    requires |draws| == |bundles| + 1
    ensures var envelope := EncryptForUser(sender, bundles, draws, plaintext);
            var copies := Copyable(sender, draws[|bundles|]);
            && (envelope.Some? <==>
                  && (forall k | 0 <= k < |bundles| :: Sealable(bundles[k], draws[k]))
                  && (bundles != [] || copies))
            && (envelope.Some? ==>
                  && |envelope.value| == |bundles| + (if copies then 1 else 0)
                  && (forall k | 0 <= k < |bundles| ::
                        envelope.value[k].device == bundles[k].device
                        && envelope.value[k].prekeyId == bundles[k].prekeyId)
                  && (copies ==>
                        var last := envelope.value[|bundles|];
                        last.device == sender.device && last.prekeyId == 0))
  {
    SealsExactly(bundles, draws[..|bundles|], plaintext);
    if SealForBundles(bundles, draws[..|bundles|], plaintext).Some? {
      SealedEntries(bundles, draws[..|bundles|], plaintext);
    }
  }

  // ---------------------------------------------------------------- any content

  /** One prekey fewer, the others in order, or all of them. */
  ghost predicate LosesAtMostOne(before: Local, after: Local) {
    || after == before
    || exists i :: 0 <= i < |before.prekeys|
         && after == before.(prekeys := before.prekeys[..i] + before.prekeys[i + 1..])
  }

  lemma {:induction false} EntriesLoseAtMostOne(local: Local, entries: seq<Entry>)
    ensures var (after, text) := TryEntries(local, entries);
            LosesAtMostOne(local, after) && (text == "" ==> after == local)
  {
    hide OpenWithPrekey;
    if entries != [] {
      EntriesLoseAtMostOne(local, entries[1..]);
    }
  }

  /** One such entry spoils the envelope. */
  predicate IsMalformed(e: Entry) {
    e.device == "" || e.prekeyId < 0 || !e.ephemeral.Pub? || e.iv.size != 12 || e.ciphertext.Size() < 16
  }

  /**
   * Legacy text is read as it is.  Of an envelope that cannot be read the device is told, and
   * loses nothing by it; one that it can read costs it one prekey at most.
   */
  lemma {:induction false} IncomingContent(local: Local, content: Content)
    ensures var r := DecryptIncoming(local, content);
            && (content.Text? ==> r == Result(local, content.text, false))
            && (content.Envelope? ==> (r.undecryptable <==> r.text == ""))
            && (content.Envelope? && (content.entries == [] || exists e :: e in content.entries && IsMalformed(e)) ==>
                  r.undecryptable)
            && (r.undecryptable ==> r.local == local)
            && LosesAtMostOne(local, r.local)
  {
    hide TryEntries;
    if content.Envelope? {
      EntriesLoseAtMostOne(local, content.entries);
    }
  }
}
