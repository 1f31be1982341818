/**
 * The per-connection fixed-window limiter: `Window` mutates three fields, `Admit` on
 * values says what one call does, and the lemmas bound what a run of calls can admit.
 */
module RateWindow {
  /** The fields of a limiter, with its two limits. */
  datatype State = State(maxCount: int, windowSeconds: int, windowStart: int, count: int, initialized: bool)

  function Initial(maxCount: int, windowSeconds: int): State {
    State(maxCount, windowSeconds, 0, 0, false)
  }

  function Admit(st: State, now: int): (State, bool) {
    var current := if !st.initialized || now - st.windowStart >= st.windowSeconds
                  then st.(windowStart := now, count := 0, initialized := true)
                  else st;
    if current.count >= st.maxCount then (current, false) else (current.(count := current.count + 1), true)
  }

  class Window {
    const maxCount: int
    const windowSeconds: int
    var windowStart: int
    var count: int
    var initialized: bool

    ghost function Fields(): State
      reads this
    {
      State(maxCount, windowSeconds, windowStart, count, initialized)
    }

    constructor (maxCount: int, windowSeconds: int)
      ensures Fields() == Initial(maxCount, windowSeconds)
    {
      this.maxCount, this.windowSeconds := maxCount, windowSeconds;
      windowStart, count, initialized := 0, 0, false;
    }

    method Allow(now: int) returns (admitted: bool)
      modifies this
      ensures (Fields(), admitted) == Admit(old(Fields()), now)
    {
      if !initialized || now - windowStart >= windowSeconds {
        windowStart := now;
        count := 0;
        initialized := true;
      }
      if count >= maxCount {
        return false;
      }
      count := count + 1;
      return true;
    }

    method Reset()
      modifies this
      ensures Fields() == Initial(maxCount, windowSeconds)
    {
      windowStart := 0;
      count := 0;
      initialized := false;
    }
  }

  // ---------------------------------------------------------------- runs of calls

  /** A limiter's limits, and the times at which it has been called. */
  datatype Run = Run(maxCount: int, windowSeconds: int, times: seq<int>)
  {
    function Prefix(n: nat): Run
      requires n <= |times|
    {
      Run(maxCount, windowSeconds, times[..n])
    }

    function Before(): Run
      requires times != []
    {
      Prefix(|times| - 1)
    }

    function Last(): int
      requires times != []
    {
      times[|times| - 1]
    }
  }

  function After(run: Run): State
    decreases |run.times|
  {
    if run.times == [] then Initial(run.maxCount, run.windowSeconds)
    else Admit(After(run.Before()), run.Last()).0
  }

  predicate LastAdmitted(run: Run)
    requires run.times != []
  {
    Admit(After(run.Before()), run.Last()).1
  }

  /** How many calls at times in [from, to) were admitted. */
  function AdmittedIn(run: Run, from: int, to: int): nat
    decreases |run.times|
  {
    if run.times == [] then 0
    else AdmittedIn(run.Before(), from, to) + if from <= run.Last() < to && LastAdmitted(run) then 1 else 0
  }

  /** How many calls at time `from` or later were admitted. */
  function AdmittedFrom(run: Run, from: int): nat
    decreases |run.times|
  {
    if run.times == [] then 0
    else AdmittedFrom(run.Before(), from) + if from <= run.Last() && LastAdmitted(run) then 1 else 0
  }

  predicate NonDecreasing(times: seq<int>) {
    forall i, j | 0 <= i < j < |times| :: times[i] <= times[j]
  }

  lemma {:induction false} AdmittedFromSplits(run: Run, from: int, to: int)
    requires from <= to
    ensures AdmittedFrom(run, from) == AdmittedIn(run, from, to) + AdmittedFrom(run, to)
    decreases |run.times|
  {
    if run.times != [] {
      AdmittedFromSplits(run.Before(), from, to);
    }
  }

  lemma {:induction false} NothingAfterTheLast(run: Run, from: int)
    requires NonDecreasing(run.times)
    requires run.times != [] ==> run.Last() < from
    ensures AdmittedFrom(run, from) == 0
    decreases |run.times|
  {
    if run.times != [] {
      NothingAfterTheLast(run.Before(), from);
    }
  }

  /**
   * What the fields say about the calls so far: the count is what the current window has
   * admitted, the call that opened the window among it; and the tail of any stretch of
   * W seconds that lies before the window misses the call that opened the previous one.
   */
  ghost predicate Accounts(run: Run) {
    var st := After(run);
    && st.maxCount == run.maxCount && st.windowSeconds == run.windowSeconds
    && (st.initialized <==> run.times != [])
    && (st.initialized ==>
          && 1 <= st.count <= run.maxCount
          && st.windowStart <= run.Last() < st.windowStart + run.windowSeconds
          && AdmittedFrom(run, st.windowStart) == st.count
          && AdmittedFrom(run, st.windowStart + 1) <= st.count - 1
          && forall t | st.windowStart - run.windowSeconds < t ::
               AdmittedIn(run, t, st.windowStart) <= run.maxCount - 1)
  }

  lemma OpeningAccounts(run: Run)
    requires run.times != [] && NonDecreasing(run.times) && run.maxCount >= 1 && run.windowSeconds >= 1
    requires Accounts(run.Before())
    requires var st := After(run.Before()); !st.initialized || run.Last() - st.windowStart >= st.windowSeconds
    ensures Accounts(run)
  {
    var before := run.Before();
    NothingAfterTheLast(before, run.Last());
    NothingAfterTheLast(before, run.Last() + 1);
    forall t | run.Last() - run.windowSeconds < t
      ensures AdmittedIn(run, t, run.Last()) <= run.maxCount - 1
    {
      if before.times == [] {
      } else if t <= run.Last() {
        AdmittedFromSplits(before, t, run.Last());
        AdmittedFromSplits(before, After(before).windowStart + 1, t);
      } else {
        EmptyInterval(run, t, run.Last());
      }
    }
  }

  lemma {:induction false} EmptyInterval(run: Run, from: int, to: int)
    requires to <= from
    ensures AdmittedIn(run, from, to) == 0
    decreases |run.times|
  {
    if run.times != [] {
      EmptyInterval(run.Before(), from, to);
    }
  }

  lemma {:induction false} FieldsAccount(run: Run)
    requires NonDecreasing(run.times) && run.maxCount >= 1 && run.windowSeconds >= 1
    ensures Accounts(run)
    decreases |run.times|
  {
    if run.times != [] {
      FieldsAccount(run.Before());
      var st := After(run.Before());
      if !st.initialized || run.Last() - st.windowStart >= st.windowSeconds {
        OpeningAccounts(run);
      }
    }
  }

  /**
   * No stretch of W seconds sees as many as twice the limit: at most 2 * maxCount - 1 calls
   * are admitted at times in [t, t + W), whatever the times of the calls.
   */
  lemma {:induction false} AtMostTwiceTheLimit(run: Run, t: int)
    requires NonDecreasing(run.times)
    ensures AdmittedIn(run, t, t + run.windowSeconds) <= if run.maxCount >= 1 then 2 * run.maxCount - 1 else 0
    decreases |run.times|
  {
    if run.windowSeconds < 1 {
      EmptyInterval(run, t, t + run.windowSeconds);
    } else if run.times != [] {
      var to := t + run.windowSeconds;
      AtMostTwiceTheLimit(run.Before(), t);
      if run.maxCount < 1 {
        BasicFields(run.Before());
      } else if t <= run.Last() < to {
        FieldsAccount(run);
        var start := After(run).windowStart;
        AdmittedFromSplits(run, t, to);
        if t > start {
          AdmittedFromSplits(run, start + 1, t);
        } else {
          AdmittedFromSplits(run, t, start);
        }
      }
    }
  }

  lemma {:induction false} BasicFields(run: Run)
    requires NonDecreasing(run.times)
    ensures var st := After(run);
            && st.count >= 0 && st.maxCount == run.maxCount && st.windowSeconds == run.windowSeconds
            && (st.initialized ==> run.times != [] && st.windowStart <= run.Last())
    decreases |run.times|
  {
    if run.times != [] {
      BasicFields(run.Before());
    }
  }

  /** A call is refused only if `maxCount` calls were admitted within the W seconds up to it. */
  lemma RefusedOnlyWhenFull(run: Run)
    requires NonDecreasing(run.times) && run.times != [] && !LastAdmitted(run)
    ensures AdmittedFrom(run.Before(), run.Last() - run.windowSeconds + 1) >= run.maxCount
  {
    var before := run.Before();
    BasicFields(before);
    if run.maxCount >= 1 {
      var from := run.Last() - run.windowSeconds + 1;
      if run.windowSeconds >= 1 {
        FieldsAccount(before);
        AdmittedFromSplits(before, from, After(before).windowStart);
      }
    }
  }

  /** One call at 0, `late` calls just before the window ends and `next` calls as the next one opens. */
  function Burst(windowSeconds: int, late: nat, next: nat): seq<int> {
    if next > 0 then Burst(windowSeconds, late, next - 1) + [windowSeconds]
    else if late > 0 then Burst(windowSeconds, late - 1, 0) + [windowSeconds - 1]
    else [0]
  }

  function BurstRun(maxCount: int, windowSeconds: int, late: nat, next: nat): (run: Run)
    ensures run.times != []
    ensures run.Last() == if next > 0 then windowSeconds else if late > 0 then windowSeconds - 1 else 0
  {
    Run(maxCount, windowSeconds, Burst(windowSeconds, late, next))
  }

  lemma OrderedSnoc(times: seq<int>, now: int)
    requires NonDecreasing(times) && forall t | t in times :: t <= now
    ensures NonDecreasing(times + [now])
  {
    forall i, j | 0 <= i < j < |times + [now]|
      ensures (times + [now])[i] <= (times + [now])[j]
    {
      assert times[i] in times;
    }
  }

  lemma {:induction false} BurstIsOrdered(windowSeconds: int, late: nat, next: nat)
    requires windowSeconds >= 2
    ensures NonDecreasing(Burst(windowSeconds, late, next))
    ensures forall t | t in Burst(windowSeconds, late, next) :: t <= BurstRun(0, windowSeconds, late, next).Last()
  {
    if next > 0 {
      BurstIsOrdered(windowSeconds, late, next - 1);
      OrderedSnoc(Burst(windowSeconds, late, next - 1), windowSeconds);
    } else if late > 0 {
      BurstIsOrdered(windowSeconds, late - 1, 0);
      OrderedSnoc(Burst(windowSeconds, late - 1, 0), windowSeconds - 1);
    }
  }

  lemma OneMoreCall(run: Run, now: int, from: int, to: int)
    ensures var more := Run(run.maxCount, run.windowSeconds, run.times + [now]);
            && After(more) == Admit(After(run), now).0
            && AdmittedIn(more, from, to) ==
               AdmittedIn(run, from, to) + if from <= now < to && Admit(After(run), now).1 then 1 else 0
  {
    var more := Run(run.maxCount, run.windowSeconds, run.times + [now]);
    assert more.Before() == run;
  }

  lemma {:induction false} BurstIsAdmitted(maxCount: int, windowSeconds: int, late: nat, next: nat)
    requires windowSeconds >= 2 && late < maxCount && next <= maxCount
    ensures var run := BurstRun(maxCount, windowSeconds, late, next);
            && AdmittedIn(run, windowSeconds - 1, 2 * windowSeconds - 1) == late + next
            && After(run) == State(maxCount, windowSeconds, if next > 0 then windowSeconds else 0,
                                   if next > 0 then next else 1 + late, true)
  {
    hide After, AdmittedIn;
    if next > 0 {
      BurstIsAdmitted(maxCount, windowSeconds, late, next - 1);
      var shorter := BurstRun(maxCount, windowSeconds, late, next - 1);
      OneMoreCall(shorter, windowSeconds, windowSeconds - 1, 2 * windowSeconds - 1);
    } else if late > 0 {
      BurstIsAdmitted(maxCount, windowSeconds, late - 1, 0);
      var shorter := BurstRun(maxCount, windowSeconds, late - 1, 0);
      OneMoreCall(shorter, windowSeconds - 1, windowSeconds - 1, 2 * windowSeconds - 1);
    } else {
      NoCalls(maxCount, windowSeconds, windowSeconds - 1, 2 * windowSeconds - 1);
      OneMoreCall(Run(maxCount, windowSeconds, []), 0, windowSeconds - 1, 2 * windowSeconds - 1);
      assert [] + [0] == Burst(windowSeconds, 0, 0);
    }
  }

  lemma NoCalls(maxCount: int, windowSeconds: int, from: int, to: int)
    ensures var run := Run(maxCount, windowSeconds, []);
            After(run) == Initial(maxCount, windowSeconds) && AdmittedIn(run, from, to) == 0
  {
  }

  ghost predicate ReachesBoundAt(run: Run, t: int) {
    NonDecreasing(run.times) && AdmittedIn(run, t, t + run.windowSeconds) == 2 * run.maxCount - 1
  }

  /** The bound is reached: some run admits 2 * maxCount - 1 calls within W seconds. */
  lemma BoundIsReached(maxCount: int, windowSeconds: int)
    requires maxCount >= 1 && windowSeconds >= 2
    ensures exists run: Run, t :: run.maxCount == maxCount && run.windowSeconds == windowSeconds
              && ReachesBoundAt(run, t)
  {
    BurstIsOrdered(windowSeconds, maxCount - 1, maxCount);
    BurstIsAdmitted(maxCount, windowSeconds, maxCount - 1, maxCount);
    assert ReachesBoundAt(BurstRun(maxCount, windowSeconds, maxCount - 1, maxCount), windowSeconds - 1);
  }
}
