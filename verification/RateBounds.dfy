/**
 How many requests the rate limiter (src/grpc/auth.rs) lets through in the 60 seconds from a given
 moment: exactly, from the key's entry at that moment, over everything that may follow.
 */
module RateBounds {
  import opened MachineIntegers
  import opened RateLimiter
  import opened Wrappers

  /** What may follow from a moment on, for a key with a limit that has not been exceeded. */
  ghost predicate Continues(states: seq<Keys>, calls: seq<Call>, key: string, from: int) {
    && Follows(states, calls, key)
    && (forall i | 0 <= i < |calls| :: from <= calls[i].now)
    && Limited(states[0][key])
  }

  predicate Limited(e: Entry) {
    e.rateLimit > 0 && e.requestCount <= e.rateLimit
  }

  /** The window is under way at the moment and ends within the next 60 seconds. */
  predicate UnderWay(e: Entry, from: int) {
    e.lastRequest < from < e.lastRequest + WINDOW
  }

  /** The most requests that can be accepted in the 60 seconds from a moment. */
  function MostAccepts(e: Entry, from: int): nat
    requires Limited(e)
  {
    if from >= e.lastRequest + WINDOW then e.rateLimit
    else if from <= e.lastRequest then e.rateLimit - e.requestCount
    else 2 * e.rateLimit - e.requestCount
  }

  // ----- no more than that -----

  /** What the current window may add to the accepts of the next one. */
  function Remaining(e: Entry, from: int): nat
    requires Limited(e)
  {
    if from >= e.lastRequest + WINDOW then 0 else e.rateLimit - e.requestCount
  }

  /** How the accepts c since the moment relate to the entry at the moment and the entry now. */
  ghost predicate Tally(first: Entry, e: Entry, c: nat, from: int)
    requires Limited(first)
  {
    && e.rateLimit == first.rateLimit && Limited(e)
    && if e.lastRequest == first.lastRequest then
         c + first.requestCount <= e.requestCount && (from >= first.lastRequest + WINDOW ==> c == 0)
       else
         && from <= e.lastRequest && first.lastRequest + WINDOW <= e.lastRequest
         && (e.lastRequest < from + WINDOW ==> c <= Remaining(first, from) + e.requestCount)
         && (e.lastRequest >= from + WINDOW ==> c <= MostAccepts(first, from))
  }

  /** One call keeps the tally. */
  lemma TallyStep(first: Entry, e: Entry, e': Entry, c: nat, hit: bool, from: int, now: int)
    requires Limited(first) && Tally(first, e, c, from) && Moves(e, e', hit, now) && from <= now
    requires e.lastRequest != first.lastRequest ==> e.lastRequest <= now
    ensures Tally(first, e', c + if hit && now < from + WINDOW then 1 else 0, from)
  {
    if e'.lastRequest == e.lastRequest {
      SmallCount(e.requestCount + if hit then 1 else 0, e', hit);
    }
  }

  lemma {:induction false} TallyAlways(states: seq<Keys>, calls: seq<Call>, key: string, from: int, i: nat)
    requires Continues(states, calls, key, from) && i <= |calls|
    ensures key in states[i]
    ensures states[i][key].lastRequest != states[0][key].lastRequest ==>
              i > 0 && states[i][key].lastRequest <= calls[i - 1].now
    ensures Tally(states[0][key], states[i][key], Within(states, calls, key, i, from, from + WINDOW), from)
  {
    if i > 0 {
      TallyAlways(states, calls, key, from, i - 1);
      EntryMoves(states, calls, key, i);
      hide Hit, Tally;
      if i > 1 {
        ClockForward(calls, i - 2, i - 1);
      }
      TallyStep(states[0][key], states[i - 1][key], states[i][key],
                Within(states, calls, key, i - 1, from, from + WINDOW),
                Hit(states[i - 1], calls[i - 1], key), from, calls[i - 1].now);
    }
  }

  /** Whatever follows, the 60 seconds from the moment see at most the bound. */
  lemma AtMostTheBound(states: seq<Keys>, calls: seq<Call>, key: string, from: int, i: nat)
    requires Continues(states, calls, key, from) && i <= |calls|
    ensures Within(states, calls, key, i, from, from + WINDOW) <= MostAccepts(states[0][key], from)
  {
    TallyAlways(states, calls, key, from, i);
  }

  // ----- and that many are possible -----

  /** When the requests of the second part come: at the window's end, or at once if it is over. */
  function SecondTime(e: Entry, from: int): int {
    if from >= e.lastRequest + WINDOW then from else e.lastRequest + WINDOW
  }

  /** The key is neither disabled nor expired before its window and the moment are over. */
  predicate Usable(e: Entry, from: int) {
    e.enabled && (e.expiresAt.Some? ==> SecondTime(e, from) <= e.expiresAt.value)
  }

  /**
   n requests can be accepted, as far as the key's own time is concerned. A key that expires inside
   its window still lets one request into the next: checked just in time, counted at the window's end.
   */
  predicate Possible(e: Entry, from: int, n: nat)
    requires Limited(e)
  {
    && n <= MostAccepts(e, from)
    && (Usable(e, from) ||
        (e.enabled && e.expiresAt.Some? && from <= e.expiresAt.value && n <= Remaining(e, from) + 1))
  }

  /** The entry after i requests: first what remains of the window, then a full window. */
  function BurstEntry(e: Entry, from: int, i: nat): Entry
    requires Limited(e) && i <= MostAccepts(e, from)
  {
    var first := Remaining(e, from);
    if i <= first then e.(requestCount := e.requestCount + i)
    else e.(requestCount := i - first, lastRequest := SecondTime(e, from))
  }

  function BurstCall(e: Entry, key: string, from: int, i: nat): Call
    requires Limited(e)
  {
    if i < Remaining(e, from) then Validate(key, from, from)
    else Validate(key, if Usable(e, from) || e.expiresAt.None? then SecondTime(e, from) else e.expiresAt.value,
                  SecondTime(e, from))
  }

  lemma BurstStep(e: Entry, key: string, from: int, i: nat)
    requires Limited(e) && Possible(e, from, i + 1)
    ensures var call := BurstCall(e, key, from, i);
            && call.Validate? && call.keyHash == key
            && Refused(BurstEntry(e, from, i), call.checkedAt, call.now).None?
            && Validated(BurstEntry(e, from, i), call.checkedAt, call.now) == BurstEntry(e, from, i + 1)
            && from <= call.now < from + WINDOW && call.now <= SecondTime(e, from)
  {
    var call, before := BurstCall(e, key, from, i), BurstEntry(e, from, i);
    WindowOver(call.now - before.lastRequest);
    hide WholeSeconds, Wrap32;
    var rolled := Rolled(before, call.now);
    assert rolled.requestCount < e.rateLimit;
    Wrap32Small(rolled.requestCount + 1);
  }

  ghost function BurstStates(keys: Keys, key: string, from: int, n: nat): seq<Keys>
    requires key in keys && Limited(keys[key]) && n <= MostAccepts(keys[key], from)
  {
    seq(n + 1, i requires 0 <= i <= n => keys[key := BurstEntry(keys[key], from, i)])
  }

  ghost function BurstCalls(keys: Keys, key: string, from: int, n: nat): seq<Call>
    requires key in keys && Limited(keys[key])
  {
    seq(n, i requires 0 <= i < n => BurstCall(keys[key], key, from, i))
  }

  lemma BurstClock(keys: Keys, key: string, from: int, n: nat)
    requires key in keys && Limited(keys[key]) && Possible(keys[key], from, n)
    ensures Clocked(BurstCalls(keys, key, from, n))
  {
    var calls := BurstCalls(keys, key, from, n);
    forall i, j | 0 <= i < j < |calls| ensures calls[i].now <= Begins(calls[j]) {
    }
  }

  lemma BurstContinues(keys: Keys, key: string, from: int, n: nat)
    requires key in keys && Limited(keys[key]) && Possible(keys[key], from, n)
    ensures Continues(BurstStates(keys, key, from, n), BurstCalls(keys, key, from, n), key, from)
    ensures BurstStates(keys, key, from, n)[0] == keys
    ensures forall i | 0 <= i < n ::
              Hit(BurstStates(keys, key, from, n)[i], BurstCalls(keys, key, from, n)[i], key)
              && from <= BurstCalls(keys, key, from, n)[i].now < from + WINDOW
              && BurstCalls(keys, key, from, n)[i].now <= SecondTime(keys[key], from)
  {
    var states, calls, e := BurstStates(keys, key, from, n), BurstCalls(keys, key, from, n), keys[key];
    assert BurstEntry(e, from, 0) == e;
    BurstClock(keys, key, from, n);
    forall i | 0 <= i < n
      ensures states[i + 1] == After(states[i], calls[i]) && Hit(states[i], calls[i], key)
      ensures from <= calls[i].now < from + WINDOW && calls[i].now <= SecondTime(e, from)
    {
      assert Possible(e, from, i + 1);
      hide Possible, BurstEntry, BurstCall, SecondTime, Validated, Refused, MostAccepts;
      BurstStep(e, key, from, i);
    }
  }

  lemma {:induction false} BurstCount(keys: Keys, key: string, from: int, n: nat, to: int, i: nat)
    requires key in keys && Limited(keys[key]) && Possible(keys[key], from, n) && i <= n
    requires to >= from + WINDOW || to > SecondTime(keys[key], from)
    ensures Within(BurstStates(keys, key, from, n), BurstCalls(keys, key, from, n), key, i, from, to) == i
  {
    if i > 0 {
      BurstCount(keys, key, from, n, to, i - 1);
      BurstContinues(keys, key, from, n);
      hide Hit, MostAccepts, Possible;
    }
  }

  /** n requests that are possible are accepted by some continuation. */
  lemma Reached(keys: Keys, key: string, from: int, n: nat)
    requires key in keys && Limited(keys[key]) && Possible(keys[key], from, n)
    ensures exists states: seq<Keys>, calls: seq<Call> ::
              && Continues(states, calls, key, from) && states[0] == keys
              && Within(states, calls, key, |calls|, from, from + WINDOW) == n
  {
    BurstContinues(keys, key, from, n);
    BurstCount(keys, key, from, n, from + WINDOW, n);
    assert |BurstCalls(keys, key, from, n)| == n;
  }

  /** Whatever the entry, its window's phase and its count, some continuation reaches the bound. */
  lemma BoundReached(keys: Keys, key: string, from: int)
    requires key in keys && Limited(keys[key]) && Usable(keys[key], from)
    ensures exists states: seq<Keys>, calls: seq<Call> ::
              && Continues(states, calls, key, from) && states[0] == keys
              && Within(states, calls, key, |calls|, from, from + WINDOW) == MostAccepts(keys[key], from)
  {
    Reached(keys, key, from, MostAccepts(keys[key], from));
  }

  // ----- keys that are disabled or expire -----

  /** A hit is checked while the key is enabled and not expired. */
  lemma HitInTime(states: seq<Keys>, calls: seq<Call>, key: string, i: nat)
    requires Follows(states, calls, key) && i < |calls| && Hit(states[i], calls[i], key)
    ensures var e := states[0][key];
            e.enabled && (e.expiresAt.Some? ==> Begins(calls[i]) <= e.expiresAt.value)
  {
    LimitFixed(states, calls, key, i);
  }

  /** After a call that ends too late there is no hit. */
  lemma NoLaterHit(states: seq<Keys>, calls: seq<Call>, key: string, i: nat)
    requires Follows(states, calls, key) && 0 < i < |calls|
    requires var e := states[0][key]; e.expiresAt.Some? && e.expiresAt.value < calls[i - 1].now
    ensures !Hit(states[i], calls[i], key)
  {
    ClockForward(calls, i - 1, i);
    if Hit(states[i], calls[i], key) {
      HitInTime(states, calls, key, i);
    }
  }

  /** Before the moment a key's time can only be checked once, and then in time: by the first call. */
  lemma {:induction false} AtMostOne(states: seq<Keys>, calls: seq<Call>, key: string, from: int, i: nat)
    requires Continues(states, calls, key, from) && i <= |calls|
    requires var e := states[0][key]; e.enabled ==> e.expiresAt.Some? && e.expiresAt.value < from
    ensures Within(states, calls, key, i, from, from + WINDOW) <= if i == 0 || !states[0][key].enabled then 0 else 1
  {
    if i > 0 {
      AtMostOne(states, calls, key, from, i - 1);
      if !states[0][key].enabled && Hit(states[i - 1], calls[i - 1], key) {
        HitInTime(states, calls, key, i - 1);
      }
      if states[0][key].enabled && i > 1 {
        NoLaterHit(states, calls, key, i - 1);
      }
    }
  }

  /** The accepts c of a key that expires inside its window: what remains of the window, and one more. */
  ghost predicate LastTally(first: Entry, e: Entry, c: nat)
    requires Limited(first)
  {
    && Limited(e) && e.rateLimit == first.rateLimit
    && if e.lastRequest == first.lastRequest then c + first.requestCount <= e.requestCount
       else e.lastRequest >= first.lastRequest + WINDOW && c + first.requestCount <= first.rateLimit + 1
  }

  /** One call keeps the tally; in the next window no more are accepted. */
  lemma LastTallyStep(first: Entry, e: Entry, e': Entry, c: nat, hit: bool, now: int)
    requires Limited(first) && LastTally(first, e, c) && Moves(e, e', hit, now)
    requires e.lastRequest != first.lastRequest ==> !hit
    ensures LastTally(first, e', c + if hit then 1 else 0)
    ensures e'.lastRequest != e.lastRequest ==> now >= e.lastRequest + WINDOW
  {
    if e'.lastRequest == e.lastRequest {
      SmallCount(e.requestCount + if hit then 1 else 0, e', hit);
    }
  }

  lemma LastTallyLess(first: Entry, e: Entry, c: nat, c': nat)
    requires Limited(first) && LastTally(first, e, c) && c' <= c
    ensures LastTally(first, e, c')
  {
  }

  lemma {:induction false} LastTallyAlways(states: seq<Keys>, calls: seq<Call>, key: string, from: int, i: nat)
    requires Continues(states, calls, key, from) && i <= |calls|
    requires var e := states[0][key]; e.expiresAt.Some? && e.expiresAt.value < e.lastRequest + WINDOW
    ensures key in states[i]
    ensures states[i][key].lastRequest != states[0][key].lastRequest ==>
              i > 0 && states[0][key].lastRequest + WINDOW <= calls[i - 1].now
    ensures LastTally(states[0][key], states[i][key], Within(states, calls, key, i, from, from + WINDOW))
  {
    if i > 0 {
      LastTallyAlways(states, calls, key, from, i - 1);
      EntryMoves(states, calls, key, i);
      var first, e, e' := states[0][key], states[i - 1][key], states[i][key];
      var hit, c := Hit(states[i - 1], calls[i - 1], key), Within(states, calls, key, i - 1, from, from + WINDOW);
      if e.lastRequest != first.lastRequest {
        NoLaterHit(states, calls, key, i - 1);
        ClockForward(calls, i - 2, i - 1);
      }
      hide Hit, LastTally, Moves, Continues, Follows, Clocked, After;
      LastTallyStep(first, e, e', c, hit, calls[i - 1].now);
      LastTallyLess(first, e', c + if hit then 1 else 0, Within(states, calls, key, i, from, from + WINDOW));
    }
  }

  // ----- when the limit itself holds -----

  /** Every continuation stays within the limit in the 60 seconds from the moment. */
  ghost predicate StaysWithinLimit(keys: Keys, key: string, from: int)
    requires key in keys
  {
    forall states: seq<Keys>, calls: seq<Call> | Continues(states, calls, key, from) && states[0] == keys ::
      Within(states, calls, key, |calls|, from, from + WINDOW) <= keys[key].rateLimit
  }

  /** The key can use up what remains of a window under way, and can still be used when the window ends. */
  predicate MayExceed(e: Entry, from: int) {
    && UnderWay(e, from) && e.requestCount < e.rateLimit && e.enabled
    && (e.expiresAt.Some? ==>
          e.lastRequest + WINDOW <= e.expiresAt.value || (from <= e.expiresAt.value && e.requestCount == 0))
  }

  lemma NotExceeded(states: seq<Keys>, calls: seq<Call>, key: string, from: int)
    requires Continues(states, calls, key, from) && !MayExceed(states[0][key], from)
    ensures Within(states, calls, key, |calls|, from, from + WINDOW) <= states[0][key].rateLimit
  {
    var e := states[0][key];
    if !UnderWay(e, from) || e.requestCount == e.rateLimit {
      AtMostTheBound(states, calls, key, from, |calls|);
    } else if !e.enabled || e.expiresAt.value < from {
      AtMostOne(states, calls, key, from, |calls|);
    } else {
      LastTallyAlways(states, calls, key, from, |calls|);
    }
  }

  /** For every key with a limit, that is so exactly if it cannot be used on both sides of its window's end. */
  lemma StaysWithinLimitIff(keys: Keys, key: string, from: int)
    requires key in keys && Limited(keys[key])
    ensures StaysWithinLimit(keys, key, from) <==> !MayExceed(keys[key], from)
  {
    if MayExceed(keys[key], from) {
      var e := keys[key];
      Reached(keys, key, from, if Usable(e, from) then MostAccepts(e, from) else e.rateLimit + 1);
    } else {
      forall states: seq<Keys>, calls: seq<Call> | Continues(states, calls, key, from) && states[0] == keys
        ensures Within(states, calls, key, |calls|, from, from + WINDOW) <= keys[key].rateLimit
      {
        NotExceeded(states, calls, key, from);
      }
    }
  }

  /** A key as this service makes them, never disabled and never expiring: only its window decides. */
  lemma WindowDecides(keys: Keys, key: string, from: int)
    requires key in keys && Limited(keys[key]) && keys[key].enabled && keys[key].expiresAt.None?
    ensures StaysWithinLimit(keys, key, from) <==>
            !UnderWay(keys[key], from) || keys[key].requestCount == keys[key].rateLimit
  {
    StaysWithinLimitIff(keys, key, from);
  }

  // ----- intervals of a run -----

  /** Calls before the moment do not count. */
  lemma {:induction false} SkipEarlier(states: seq<Keys>, calls: seq<Call>, key: string, m: nat, i: nat,
                                       from: int, to: int)
    requires m <= i <= |calls| && |states| == |calls| + 1
    requires forall j | 0 <= j < m :: calls[j].now < from
    ensures Within(states, calls, key, i, from, to) == Within(states[m..], calls[m..], key, i - m, from, to)
    decreases i
  {
    if i > m {
      SkipEarlier(states, calls, key, m, i - 1, from, to);
      assert states[m..][i - m - 1] == states[i - 1] && calls[m..][i - m - 1] == calls[i - 1];
    } else if i > 0 {
      NothingEarlier(states, calls, key, i, from, to);
    }
  }

  lemma {:induction false} NothingEarlier(states: seq<Keys>, calls: seq<Call>, key: string, i: nat, from: int, to: int)
    requires i <= |calls| < |states| && forall j | 0 <= j < i :: calls[j].now < from
    ensures Within(states, calls, key, i, from, to) == 0
  {
    if i > 0 {
      NothingEarlier(states, calls, key, i - 1, from, to);
    }
  }

  /** In every run, the entry before an interval bounds what any 60 seconds see. */
  lemma RunIntervalBound(states: seq<Keys>, calls: seq<Call>, key: string, start: int, m: nat, i: nat, from: int)
    requires IsRun(states, calls, key, start) && states[0][key].rateLimit > 0 && m <= i <= |calls|
    requires forall j | 0 <= j < m :: calls[j].now < from
    requires forall j | m <= j < |calls| :: from <= calls[j].now
    ensures key in states[m] && Limited(states[m][key])
    ensures Within(states, calls, key, i, from, from + WINDOW) <= MostAccepts(states[m][key], from)
  {
    WindowsWithinLimit(states, calls, key, start, m);
    LimitFixed(states, calls, key, m);
    SkipEarlier(states, calls, key, m, i, from, from + WINDOW);
    SuffixContinues(states, calls, key, m, from);
    hide Continues, Follows, IsRun;
    AtMostTheBound(states[m..], calls[m..], key, from, i - m);
  }

  lemma SuffixContinues(states: seq<Keys>, calls: seq<Call>, key: string, m: nat, from: int)
    requires Follows(states, calls, key) && m <= |calls| && key in states[m] && Limited(states[m][key])
    requires forall j | m <= j < |calls| :: from <= calls[j].now
    ensures Continues(states[m..], calls[m..], key, from)
  {
    forall j | 0 <= j < |calls| - m ensures states[m..][j + 1] == After(states[m..][j], calls[m..][j]) {
      assert states[m + j + 1] == After(states[m + j], calls[m + j]);
    }
  }

  /** For every limit some run lets twice the limit through within two nanoseconds. */
  lemma TwiceTheLimitHappens(limit: u32)
    ensures exists states: seq<Keys>, calls: seq<Call> ::
              && IsRun(states, calls, "k", 0) && states[0]["k"].rateLimit == limit
              && Within(states, calls, "k", |calls|, WINDOW - 1, WINDOW + 1) == 2 * limit
  {
    var keys := map["k" := Fresh("k", "free", "org", limit, 0)];
    if limit == 0 {
      assert IsRun([keys], [], "k", 0) && Within([keys], [], "k", 0, WINDOW - 1, WINDOW + 1) == 0;
    } else {
      BurstContinues(keys, "k", WINDOW - 1, 2 * limit);
      BurstCount(keys, "k", WINDOW - 1, 2 * limit, WINDOW + 1, 2 * limit);
      var states, calls := BurstStates(keys, "k", WINDOW - 1, 2 * limit), BurstCalls(keys, "k", WINDOW - 1, 2 * limit);
      assert |calls| == 2 * limit;
      assert IsRun(states, calls, "k", 0);
    }
  }
}
