/**
 * Replay protection: a request carries a timestamp and a nonce, and the server remembers
 * the nonces it accepted in one cache with a lifetime and a size limit.
 */
module NonceCache {
  import opened Wrappers

  const REPLAY_TOLERANCE := 300
  const MAX_NONCE_LENGTH := 128

  datatype Cache = Cache(nonces: map<string, int>, ttl: int, maxEntries: int)

  /** Integer division by two, rounding toward zero. */
  function Half(n: int): int {
    if n >= 0 then n / 2 else -(-n / 2)
  }

  function Unexpired(nonces: map<string, int>, ttl: int, now: int): map<string, int> {
    map n | n in nonces && now - nonces[n] <= ttl :: nonces[n]
  }

  function NotBefore(nonces: map<string, int>, cutoff: int): map<string, int> {
    map n | n in nonces && nonces[n] >= cutoff :: nonces[n]
  }

  /** The entries left once a cache that is half full has dropped what expired. */
  function Purged(c: Cache, now: int): map<string, int> {
    if |c.nonces| > Half(c.maxEntries) then Unexpired(c.nonces, c.ttl, now) else c.nonces
  }

  /** Whether this call finds the cache full and drops entries that may not have expired. */
  predicate Evicts(c: Cache, nonce: string, now: int) {
    var nonces := Purged(c, now);
    nonce != "" && !(nonce in nonces && now - nonces[nonce] <= c.ttl) && |nonces| >= c.maxEntries
  }

  function CheckNonce(c: Cache, nonce: string, now: int): (Cache, bool) {
    if nonce == "" then (c, false)
    else
      var nonces := Purged(c, now);
      if nonce in nonces && now - nonces[nonce] <= c.ttl then (c.(nonces := nonces), false)
      else
        var kept := if |nonces| >= c.maxEntries then NotBefore(nonces, now - Half(c.ttl)) else nonces;
        (c.(nonces := kept[nonce := now]), true)
  }

  class SharedNonceCache {
    const ttl: int
    const maxEntries: int
    var nonces: map<string, int>

    ghost function Contents(): Cache
      reads this
    {
      Cache(nonces, ttl, maxEntries)
    }

    constructor (ttl: int, maxEntries: int)
      ensures Contents() == Cache(map[], ttl, maxEntries)
    {
      this.ttl, this.maxEntries, nonces := ttl, maxEntries, map[];
    }

    method CheckAndInsert(nonce: string, now: int) returns (accepted: bool)
      modifies this
      ensures (Contents(), accepted) == CheckNonce(old(Contents()), nonce, now)
    {
      if nonce == "" {
        return false;
      }
      if |nonces| > Half(maxEntries) {
        PurgeExpired(now);
      }
      if nonce in nonces && now - nonces[nonce] <= ttl {
        return false;
      }
      if |nonces| >= maxEntries {
        EraseBefore(now - Half(ttl));
      }
      nonces := nonces[nonce := now];
      return true;
    }

    method PurgeExpired(now: int)
      modifies this
      ensures nonces == Unexpired(old(nonces), ttl, now)
    {
      var todo := nonces.Keys;
      while todo != {}
        invariant todo <= nonces.Keys <= old(nonces).Keys
        invariant forall n | n in old(nonces) :: n in nonces <==> n in todo || now - old(nonces)[n] <= ttl
        invariant forall n | n in nonces :: nonces[n] == old(nonces)[n]
      {
        var n :| n in todo;
        if now - nonces[n] > ttl {
          nonces := nonces - {n};
        }
        todo := todo - {n};
      }
    }

    method EraseBefore(cutoff: int)
      modifies this
      ensures nonces == NotBefore(old(nonces), cutoff)
    {
      var todo := nonces.Keys;
      while todo != {}
        invariant todo <= nonces.Keys <= old(nonces).Keys
        invariant forall n | n in old(nonces) :: n in nonces <==> n in todo || old(nonces)[n] >= cutoff
        invariant forall n | n in nonces :: nonces[n] == old(nonces)[n]
      {
        var n :| n in todo;
        if nonces[n] < cutoff {
          nonces := nonces - {n};
        }
        todo := todo - {n};
      }
    }
  }

  /** The nonces a check finds still cached: all of them while the cache is at most half full, else the live ones. */
  function Cached(c: Cache, now: int): set<string> {
    set n | n in c.nonces && (|c.nonces| > c.maxEntries / 2 ==> now - c.nonces[n] <= c.ttl)
  }

  /**
   * What one check leaves of the cache: of those it finds still cached all that are not older
   * than half a lifetime, the older ones too unless it is accepted and found the cache full,
   * and the nonce itself, if accepted, under the present time.
   */
  lemma {:induction false} CacheAfterCheck(c: Cache, nonce: string, now: int)
    requires nonce != "" && c.ttl >= 0 && c.maxEntries >= 0
    ensures var (after, accepted) := CheckNonce(c, nonce, now);
            && (accepted ==> nonce in after.nonces && after.nonces[nonce] == now)
            && (forall n | n in after.nonces && !(accepted && n == nonce) ::
                  n in c.nonces && after.nonces[n] == c.nonces[n])
            && (forall n | n in c.nonces && !(accepted && n == nonce) ::
                  n in after.nonces <==>
                    n in Cached(c, now)
                    && (accepted && |Cached(c, now)| >= c.maxEntries ==> now - c.nonces[n] <= c.ttl / 2))
  {
    assert Purged(c, now).Keys == Cached(c, now);
    assert |Purged(c, now)| == |Purged(c, now).Keys|;
  }

  // ---------------------------------------------------------------- requests

  /**
   * `timestamp` is `None` when the field is missing or no number; `nonce` is already trimmed.
   * The clock is read twice: at `checkedAt` for the timestamp, and at `cachedAt`, once the
   * cache is locked, for the nonce.
   */
  datatype Request = Request(timestamp: Option<int>, nonce: string, checkedAt: int, cachedAt: int)

  /** White space as Qt has it: the space separators, and the control characters that move the cursor. */
  predicate IsSpace(c: char) {
    var code := c as int;
    || 0x09 <= code <= 0x0D || code == 0x20 || code == 0x85 || code == 0xA0 || code == 0x1680
    || 0x2000 <= code <= 0x200A || code == 0x2028 || code == 0x2029
    || code == 0x202F || code == 0x205F || code == 0x3000
  }

  /** No white space at either end, as trimming leaves it. */
  predicate Trimmed(text: string) {
    text != "" ==> !IsSpace(text[0]) && !IsSpace(text[|text| - 1])
  }

  /** What can reach the check at all: the nonces have been trimmed. */
  predicate Receivable(rs: seq<Request>) {
    forall k | 0 <= k < |rs| :: Trimmed(rs[k].nonce)
  }

  predicate WithinTolerance(r: Request) {
    && r.timestamp.Some?
    && r.timestamp.value > 0
    && -REPLAY_TOLERANCE <= r.checkedAt - r.timestamp.value <= REPLAY_TOLERANCE
    && r.nonce != ""
    && |r.nonce| <= MAX_NONCE_LENGTH
  }

  function CheckReplay(c: Cache, r: Request): (Cache, bool) {
    if WithinTolerance(r) then CheckNonce(c, r.nonce, r.cachedAt) else (c, false)
  }

  method CheckReplayProtection(cache: SharedNonceCache, r: Request) returns (accepted: bool)
    modifies cache
    ensures (cache.Contents(), accepted) == CheckReplay(old(cache.Contents()), r)
  {
    if r.timestamp.None? {
      return false;
    }
    if r.timestamp.value <= 0 {
      return false;
    }
    var diff := r.checkedAt - r.timestamp.value;
    if (if diff >= 0 then diff else -diff) > REPLAY_TOLERANCE {
      return false;
    }
    if r.nonce == "" || |r.nonce| > MAX_NONCE_LENGTH {
      return false;
    }
    accepted := cache.CheckAndInsert(r.nonce, r.cachedAt);
  }

  // ---------------------------------------------------------------- runs

  function CacheAfter(c: Cache, rs: seq<Request>): Cache {
    if rs == [] then c else CheckReplay(CacheAfter(c, rs[..|rs| - 1]), rs[|rs| - 1]).0
  }

  predicate Accepted(c: Cache, rs: seq<Request>, k: int)
    requires 0 <= k < |rs|
  {
    CheckReplay(CacheAfter(c, rs[..k]), rs[k]).1
  }

  predicate EvictsAt(c: Cache, rs: seq<Request>, k: int)
    requires 0 <= k < |rs|
  {
    WithinTolerance(rs[k]) && Evicts(CacheAfter(c, rs[..k]), rs[k].nonce, rs[k].cachedAt)
  }

  /** Requests are listed in the order in which they lock the cache. */
  predicate ClockForward(rs: seq<Request>) {
    && (forall i | 0 <= i < |rs| :: rs[i].checkedAt <= rs[i].cachedAt)
    && (forall i, j | 0 <= i < j < |rs| :: rs[i].cachedAt <= rs[j].cachedAt)
  }

  /** The full acceptance history: when each nonce was last accepted, with nothing ever dropped. */
  function History(c: Cache, rs: seq<Request>): map<string, int> {
    if rs == [] then map[]
    else
      var k := |rs| - 1;
      var before := History(c, rs[..k]);
      if Accepted(c, rs, k) then before[rs[k].nonce := rs[k].cachedAt] else before
  }

  /** What the history says of a request: its nonce was not accepted within the lifetime. */
  predicate HistoryAccepts(c: Cache, rs: seq<Request>, k: int)
    requires 0 <= k < |rs|
  {
    var h := History(c, rs[..k]);
    WithinTolerance(rs[k]) && !(rs[k].nonce in h && rs[k].cachedAt - h[rs[k].nonce] <= c.ttl)
  }

  function Empty(ttl: int, maxEntries: int): Cache {
    Cache(map[], ttl, maxEntries)
  }

  /** What is cached agrees with the history, and what is not is older than `age`. */
  ghost predicate Remembers(nonces: map<string, int>, history: map<string, int>, now: int, age: int) {
    && (forall n | n in nonces :: n in history && nonces[n] == history[n])
    && (forall n | n in history && n !in nonces :: now - history[n] > age)
  }

  lemma CheckRemembers(c: Cache, history: map<string, int>, nonce: string, now: int, age: int)
    requires Remembers(c.nonces, history, now, age)
    requires age <= c.ttl && (Evicts(c, nonce, now) ==> age <= Half(c.ttl))
    ensures var (after, accepted) := CheckNonce(c, nonce, now);
            Remembers(after.nonces, if accepted then history[nonce := now] else history, now, age)
  {
  }

  lemma LaterRemembers(nonces: map<string, int>, history: map<string, int>, now: int, later: int, age: int)
    requires Remembers(nonces, history, now, age) && now <= later
    ensures Remembers(nonces, history, later, age)
  {
  }

  lemma {:induction false} RunRemembers(c: Cache, rs: seq<Request>, now: int, age: int)
    requires c.nonces == map[] && ClockForward(rs) && (rs != [] ==> rs[|rs| - 1].cachedAt <= now)
    requires age <= c.ttl && (age <= Half(c.ttl) || forall k | 0 <= k < |rs| :: !EvictsAt(c, rs, k))
    ensures CacheAfter(c, rs).ttl == c.ttl
    ensures Remembers(CacheAfter(c, rs).nonces, History(c, rs), now, age)
  {
    if rs != [] {
      var k := |rs| - 1;
      forall i | 0 <= i < k && EvictsAt(c, rs[..k], i)
        ensures EvictsAt(c, rs, i)
      {
        assert rs[..k][..i] == rs[..i];
      }
      RunRemembers(c, rs[..k], rs[k].cachedAt, age);
      if WithinTolerance(rs[k]) {
        assert EvictsAt(c, rs, k) == Evicts(CacheAfter(c, rs[..k]), rs[k].nonce, rs[k].cachedAt);
        CheckRemembers(CacheAfter(c, rs[..k]), History(c, rs[..k]), rs[k].nonce, rs[k].cachedAt, age);
      }
      LaterRemembers(CacheAfter(c, rs).nonces, History(c, rs), rs[k].cachedAt, now, age);
    }
  }

  /** Until the size limit forces live entries out, the cache answers as the full history would. */
  lemma CacheAnswersAsHistory(c: Cache, rs: seq<Request>, k: nat)
    requires k < |rs| && c.nonces == map[] && ClockForward(rs)
    requires forall i | 0 <= i < k :: !EvictsAt(c, rs, i)
    ensures Accepted(c, rs, k) <==> HistoryAccepts(c, rs, k)
  {
    PrefixEvictions(c, rs, k);
    RunRemembers(c, rs[..k], rs[k].cachedAt, c.ttl);
  }

  /** The request as such is in order: its timestamp is off by at most 300 seconds, its nonce 1 to 128 long. */
  predicate InOrder(r: Request) {
    && r.timestamp.Some? && r.timestamp.value > 0
    && r.checkedAt - 300 <= r.timestamp.value <= r.checkedAt + 300
    && 0 < |r.nonce| <= 128
  }

  lemma {:induction false} HistoryIsAccepted(c: Cache, rs: seq<Request>, nonce: string)
    requires nonce in History(c, rs)
    ensures exists i :: 0 <= i < |rs| && Accepted(c, rs, i) && rs[i].nonce == nonce
              && History(c, rs)[nonce] == rs[i].cachedAt
  {
    var k := |rs| - 1;
    if Accepted(c, rs, k) && rs[k].nonce == nonce {
      assert History(c, rs)[nonce] == rs[k].cachedAt;
    } else {
      HistoryIsAccepted(c, rs[..k], nonce);
      var i :| 0 <= i < k && Accepted(c, rs[..k], i) && rs[..k][i].nonce == nonce
        && History(c, rs[..k])[nonce] == rs[i].cachedAt;
      assert rs[..k][..i] == rs[..i];
      assert Accepted(c, rs, i);
    }
  }

  /** An earlier request with the nonce was accepted, no more than `ttl` seconds before. */
  predicate SeenWithin(c: Cache, rs: seq<Request>, k: int, ttl: int) {
    exists i :: 0 <= i < k < |rs| && Accepted(c, rs, i) && rs[i].nonce == rs[k].nonce
      && rs[k].cachedAt - rs[i].cachedAt <= ttl
  }

  /**
   * Until the first eviction, a request is accepted if and only if it is in order and no
   * request with its nonce was accepted within the lifetime before it.
   */
  lemma {:induction false} AcceptedExactly(c: Cache, rs: seq<Request>, k: nat)
    requires k < |rs| && c.nonces == map[] && ClockForward(rs)
    requires forall i | 0 <= i < k :: !EvictsAt(c, rs, i)
    ensures Accepted(c, rs, k) <==> InOrder(rs[k]) && !SeenWithin(c, rs, k, c.ttl)
  {
    hide Accepted, EvictsAt, History;
    CacheAnswersAsHistory(c, rs, k);
    forall i | 0 <= i < k && Accepted(c, rs, i)
      ensures var h := History(c, rs[..k]); rs[i].nonce in h && h[rs[i].nonce] >= rs[i].cachedAt
    {
      AcceptanceIsRecorded(c, rs, i, k);
    }
    if rs[k].nonce in History(c, rs[..k]) {
      HistoryIsAcceptedBefore(c, rs, k, rs[k].nonce);
    }
  }

  lemma HistoryIsAcceptedBefore(c: Cache, rs: seq<Request>, k: nat, nonce: string)
    requires k <= |rs| && nonce in History(c, rs[..k])
    ensures exists i :: 0 <= i < k && Accepted(c, rs, i) && rs[i].nonce == nonce
              && History(c, rs[..k])[nonce] == rs[i].cachedAt
  {
    hide History;
    HistoryIsAccepted(c, rs[..k], nonce);
    var i :| 0 <= i < k && Accepted(c, rs[..k], i) && rs[..k][i].nonce == nonce
      && History(c, rs[..k])[nonce] == rs[i].cachedAt;
    assert rs[..k][..i] == rs[..i];
    assert Accepted(c, rs, i);
  }

  /**
   * Whatever is evicted, a request that is in order is turned down only if its nonce was
   * accepted within the lifetime before it, and always if that was within half of it.
   */
  lemma {:induction false} TurnedDownOnlyIfSeen(c: Cache, rs: seq<Request>, k: nat)
    requires k < |rs| && c.nonces == map[] && ClockForward(rs) && c.ttl >= 0
    ensures Accepted(c, rs, k) ==> InOrder(rs[k]) && !SeenWithin(c, rs, k, c.ttl / 2)
    ensures !Accepted(c, rs, k) && InOrder(rs[k]) ==> SeenWithin(c, rs, k, c.ttl)
  {
    hide EvictsAt, History, SeenWithin;
    RunRemembers(c, rs[..k], rs[k].cachedAt, Half(c.ttl));
    if !Accepted(c, rs, k) && InOrder(rs[k]) {
      assert rs[k].nonce in History(c, rs[..k]);
      HistoryIsAcceptedBefore(c, rs, k, rs[k].nonce);
      assert SeenWithin(c, rs, k, c.ttl) by { LatestIsSeen(c, rs, k); }
    }
    if Accepted(c, rs, k) && SeenWithin(c, rs, k, Half(c.ttl)) {
      var i := SeenAt(c, rs, k, Half(c.ttl));
      AcceptanceIsRecorded(c, rs, i, k);
      assert false;
    }
  }

  lemma LatestIsSeen(c: Cache, rs: seq<Request>, k: nat)
    requires k < |rs|
    requires exists i :: 0 <= i < k && Accepted(c, rs, i) && rs[i].nonce == rs[k].nonce
               && rs[k].cachedAt - rs[i].cachedAt <= c.ttl
    ensures SeenWithin(c, rs, k, c.ttl)
  {
    hide Accepted;
  }

  lemma SeenAt(c: Cache, rs: seq<Request>, k: nat, ttl: int) returns (i: nat)
    requires SeenWithin(c, rs, k, ttl)
    ensures i < k < |rs| && Accepted(c, rs, i) && rs[i].nonce == rs[k].nonce
    ensures rs[k].cachedAt - rs[i].cachedAt <= ttl
  {
    hide Accepted;
    i :| 0 <= i < k && Accepted(c, rs, i) && rs[i].nonce == rs[k].nonce && rs[k].cachedAt - rs[i].cachedAt <= ttl;
  }

  lemma PrefixEvictions(c: Cache, rs: seq<Request>, k: nat)
    requires k <= |rs|
    ensures forall i | 0 <= i < k :: EvictsAt(c, rs[..k], i) == EvictsAt(c, rs, i)
  {
    forall i | 0 <= i < k
      ensures EvictsAt(c, rs[..k], i) == EvictsAt(c, rs, i)
    {
      assert rs[..k][..i] == rs[..i];
    }
  }

  lemma {:induction false} AcceptanceIsRecorded(c: Cache, rs: seq<Request>, i: nat, k: nat)
    requires i < k <= |rs| && ClockForward(rs) && Accepted(c, rs, i)
    ensures var h := History(c, rs[..k]); rs[i].nonce in h && h[rs[i].nonce] >= rs[i].cachedAt
  {
    assert rs[..k][..k - 1] == rs[..k - 1];
    assert Accepted(c, rs[..k], k - 1) == Accepted(c, rs, k - 1);
    if i < k - 1 {
      AcceptanceIsRecorded(c, rs, i, k - 1);
    }
  }

  /** Two requests the server takes for the same one. */
  predicate Replays(rs: seq<Request>, i: int, j: int)
    requires 0 <= i < j < |rs|
  {
    rs[i].nonce == rs[j].nonce && rs[i].timestamp == rs[j].timestamp
  }

  /** The request was accepted, and accepted again at `j`, no more than `delay` seconds after its second check. */
  predicate AcceptedTwice(c: Cache, rs: seq<Request>, i: int, j: int, delay: int) {
    && 0 <= i < j < |rs|
    && Receivable(rs) && ClockForward(rs)
    && Replays(rs, i, j)
    && rs[j].cachedAt - rs[j].checkedAt <= delay
    && Accepted(c, rs, i) && Accepted(c, rs, j)
  }

  // ---------------------------------------------------------------- while nothing is evicted

  predicate NoEvictionBefore(c: Cache, rs: seq<Request>, j: int) {
    forall k | 0 <= k < j && k < |rs| :: !EvictsAt(c, rs, k)
  }

  /** As long as nothing live is evicted, a lifetime of twice the tolerance plus the delay rules out replays. */
  lemma NoReplayWithoutEviction(c: Cache, rs: seq<Request>, i: int, j: int, delay: int)
    requires c.nonces == map[] && NoEvictionBefore(c, rs, j)
    requires 600 + delay <= c.ttl
    ensures !AcceptedTwice(c, rs, i, j, delay)
  {
    if AcceptedTwice(c, rs, i, j, delay) {
      assert rs[j].cachedAt - rs[i].cachedAt <= 2 * REPLAY_TOLERANCE + delay;
      CacheAnswersAsHistory(c, rs, j);
      AcceptanceIsRecorded(c, rs, i, j);
    }
  }

  /** That lifetime is exact: for every shorter one some request is accepted twice. */
  lemma {:induction false} ReplayExactlyWhenShort(ttl: int, maxEntries: int, delay: nat)
    requires maxEntries >= 1
    ensures var c := Empty(ttl, maxEntries);
            ttl < 600 + delay <==>
            exists rs, i, j :: AcceptedTwice(c, rs, i, j, delay) && NoEvictionBefore(c, rs, j)
  {
    var c := Empty(ttl, maxEntries);
    if ttl < 2 * REPLAY_TOLERANCE + delay {
      var rs := [Request(Some(1300), "n", 1000, 1000), Request(Some(1300), "n", 1600, 1600 + delay)];
      assert rs[..0] == [] && rs[..1][..0] == [] && |rs[..1]| == 1;
      assert CacheAfter(c, rs[..1]) == Cache(map["n" := 1000], ttl, maxEntries);
      assert AcceptedTwice(c, rs, 0, 1, delay) && NoEvictionBefore(c, rs, 1);
    } else {
      forall rs, i, j | NoEvictionBefore(c, rs, j)
        ensures !AcceptedTwice(c, rs, i, j, delay)
      {
        NoReplayWithoutEviction(c, rs, i, j, delay);
      }
    }
  }

  // ---------------------------------------------------------------- when the size limit evicts

  /** When it was first accepted, the request's timestamp was at most `ahead` seconds ahead of the clock. */
  predicate AheadByAtMost(rs: seq<Request>, i: int, ahead: int) {
    0 <= i < |rs| && rs[i].timestamp.Some? && rs[i].timestamp.value <= rs[i].checkedAt + ahead
  }

  /** Whatever is evicted, a request that was not too far ahead of the clock is not accepted twice. */
  lemma NoReplayUnderEviction(c: Cache, rs: seq<Request>, i: int, j: int, ahead: int, delay: nat)
    requires c.nonces == map[] && c.ttl >= 0 && AheadByAtMost(rs, i, ahead)
    requires ahead + 300 + delay <= c.ttl / 2
    ensures !AcceptedTwice(c, rs, i, j, delay)
  {
    if AcceptedTwice(c, rs, i, j, delay) {
      assert WithinTolerance(rs[i]) && ahead >= -REPLAY_TOLERANCE;
      assert rs[j].cachedAt - rs[i].cachedAt <= ahead + REPLAY_TOLERANCE + delay;
      RunRemembers(c, rs[..j], rs[j].cachedAt, Half(c.ttl));
      AcceptanceIsRecorded(c, rs, i, j);
    }
  }

  /** The size limit is a 32-bit integer. */
  const MAX_INT := 0x7FFF_FFFF

  const START := 1000
  const RADIX := 50000

  /** Distinct short nonces to fill the cache with. */
  function Filler(k: nat): (nonce: string)
    requires k < MAX_INT
    ensures nonce != "" && |nonce| <= MAX_NONCE_LENGTH && Trimmed(nonce)
    ensures nonce != "n" && Number(nonce) == k
  {
    ['f', (k / RADIX) as char, (k % RADIX) as char, 'f']
  }

  function Number(nonce: string): int {
    if |nonce| == 4 then nonce[1] as int * RADIX + nonce[2] as int else -1
  }

  function Early(ahead: int): Request {
    Request(Some(START + ahead), "n", START, START)
  }

  /** One request ahead of the clock, then `k` others at a later time. */
  function Filling(ahead: int, later: int, k: nat): (rs: seq<Request>)
    requires k <= MAX_INT
    ensures |rs| == k + 1 && rs[0] == Early(ahead) && Receivable(rs)
    ensures forall i | 0 < i <= k :: rs[i].checkedAt == rs[i].cachedAt == later
  {
    if k == 0 then [Early(ahead)]
    else Filling(ahead, later, k - 1) + [Request(Some(later), Filler(k - 1), later, later)]
  }

  /** The first nonce and `k` fillers. */
  predicate HasAll(nonces: map<string, int>, k: nat)
    requires k <= MAX_INT
  {
    "n" in nonces && forall i | 0 <= i < k :: Filler(i) in nonces
  }

  lemma {:induction false} ManyEntries(nonces: map<string, int>, k: nat)
    requires k <= MAX_INT && HasAll(nonces, k)
    ensures |nonces| >= k + 1
  {
    if k > 0 {
      var fewer := nonces - {Filler(k - 1)};
      assert forall i | 0 <= i < k - 1 :: Number(Filler(i)) != Number(Filler(k - 1));
      ManyEntries(fewer, k - 1);
      assert nonces.Keys == fewer.Keys + {Filler(k - 1)};
    } else {
      assert nonces.Keys != {};
    }
  }

  /** After `k` fillers: they are all there, and the first nonce only while there is room for one more. */
  ghost predicate Filled(c: Cache, later: int, k: nat)
    requires k <= MAX_INT
  {
    && (forall i | 0 <= i < k :: Filler(i) in c.nonces)
    && (forall n | n in c.nonces :: if n == "n" then c.nonces[n] == START else c.nonces[n] == later && Number(n) < k)
    && ("n" in c.nonces ==> k == 0 || k < c.maxEntries)
  }

  lemma FillOneMore(c: Cache, later: int, k: nat)
    requires k < MAX_INT && Filled(c, later, k) && 0 <= Half(c.ttl) < later - START && c.ttl >= 0
    ensures Filled(CheckNonce(c, Filler(k), later).0, later, k + 1)
  {
    var purged := Purged(c, later);
    assert Filler(k) !in c.nonces;
    if "n" in purged {
      assert forall i | 0 <= i < k :: Filler(i) in purged;
      ManyEntries(purged, k);
    }
  }

  lemma {:induction false} FillingEvicts(ttl: int, maxEntries: int, ahead: int, later: int, k: nat)
    requires ttl >= 0 && k <= maxEntries <= MAX_INT && maxEntries >= 1
    requires -REPLAY_TOLERANCE <= ahead <= REPLAY_TOLERANCE && Half(ttl) < later - START
    ensures var c := CacheAfter(Empty(ttl, maxEntries), Filling(ahead, later, k));
            c.ttl == ttl && c.maxEntries == maxEntries && Filled(c, later, k)
  {
    hide CheckNonce, Filler;
    var rs := Filling(ahead, later, k);
    if k > 0 {
      hide Filled;
      FillingEvicts(ttl, maxEntries, ahead, later, k - 1);
      assert rs[..k] == Filling(ahead, later, k - 1);
      var before := CacheAfter(Empty(ttl, maxEntries), rs[..k]);
      FillOneMore(before, later, k - 1);
      SameLimits(before, rs[k].nonce, later);
    } else {
      assert rs[..0] == [];
      EarlyIsCached(ttl, maxEntries, ahead);
    }
  }

  lemma SameLimits(c: Cache, nonce: string, now: int)
    ensures var after := CheckNonce(c, nonce, now).0; after.ttl == c.ttl && after.maxEntries == c.maxEntries
  {
  }

  lemma EarlyIsCached(ttl: int, maxEntries: int, ahead: int)
    requires -REPLAY_TOLERANCE <= ahead <= REPLAY_TOLERANCE
    ensures CheckReplay(Empty(ttl, maxEntries), Early(ahead)).0.nonces == map["n" := START]
    ensures CheckReplay(Empty(ttl, maxEntries), Early(ahead)).0.(nonces := map[]) == Empty(ttl, maxEntries)
  {
  }

  /** With the cache filled and the first nonce gone, the first request is accepted again. */
  lemma {:induction false} EvictionReplays(ttl: int, maxEntries: int, ahead: int, delay: nat)
    requires ttl >= 0 && 1 <= maxEntries <= MAX_INT && -REPLAY_TOLERANCE <= ahead <= REPLAY_TOLERANCE
    requires Half(ttl) < ahead + REPLAY_TOLERANCE + delay
    ensures var later := START + ahead + REPLAY_TOLERANCE + delay;
            var replay := Early(ahead).(checkedAt := later - delay, cachedAt := later);
            var rs := Filling(ahead, later, maxEntries) + [replay];
            AcceptedTwice(Empty(ttl, maxEntries), rs, 0, maxEntries + 1, delay) && AheadByAtMost(rs, 0, ahead)
  {
    hide Filling, CheckReplay, CacheAfter, Filler;
    var c := Empty(ttl, maxEntries);
    var later := START + ahead + REPLAY_TOLERANCE + delay;
    var filling := Filling(ahead, later, maxEntries);
    var rs := filling + [Early(ahead).(checkedAt := later - delay, cachedAt := later)];
    assert rs[..0] == [] && rs[..maxEntries + 1] == filling;
    FillingEvicts(ttl, maxEntries, ahead, later, maxEntries);
    NothingYet(c);
    AbsentIsAccepted(c, rs[0]);
    AbsentIsAccepted(CacheAfter(c, filling), rs[maxEntries + 1]);
  }

  lemma NothingYet(c: Cache)
    ensures CacheAfter(c, []) == c
  {
  }

  lemma AbsentIsAccepted(c: Cache, r: Request)
    requires WithinTolerance(r) && r.nonce !in c.nonces
    ensures CheckReplay(c, r).1
  {
  }

  /**
   * That margin is exact too, for every size limit: as soon as it is exceeded, some request
   * no further ahead of the clock than that is accepted twice.
   */
  lemma {:induction false} ReplayExactlyWhenAhead(ttl: int, maxEntries: int, ahead: int, delay: nat)
    requires ttl >= 0 && 1 <= maxEntries <= MAX_INT && -REPLAY_TOLERANCE <= ahead <= REPLAY_TOLERANCE
    ensures var c := Empty(ttl, maxEntries);
            ttl / 2 < ahead + 300 + delay <==>
            exists rs, i, j :: AcceptedTwice(c, rs, i, j, delay) && AheadByAtMost(rs, i, ahead)
  {
    var c := Empty(ttl, maxEntries);
    if Half(ttl) < ahead + REPLAY_TOLERANCE + delay {
      EvictionReplays(ttl, maxEntries, ahead, delay);
    } else {
      forall rs, i, j | AheadByAtMost(rs, i, ahead)
        ensures !AcceptedTwice(c, rs, i, j, delay)
      {
        NoReplayUnderEviction(c, rs, i, j, ahead, delay);
      }
    }
  }
}
