/**
 The fixed-window rate limiter behind API keys (src/grpc/auth.rs), over whole runs of calls. Times
 are in nanoseconds. A window starts at the call that resets the count, so it is not aligned with
 anything, and 60 seconds of wall time can see two windows' worth of requests, never more.
 */
module RateLimiter {
  import opened MachineIntegers
  import opened NumberTheory
  import opened Wrappers

  const SECOND := 1_000_000_000
  const WINDOW_SECONDS := 60
  const WINDOW := WINDOW_SECONDS * SECOND

  /** rateLimit 0 means unlimited. */
  datatype Entry = Entry(keyHash: string, tier: string, orgId: string, enabled: bool, expiresAt: Option<int>,
                         rateLimit: u32, requestCount: u32, lastRequest: int)

  datatype Refusal = Disabled | Expired | Exhausted | Unknown

  type Keys = map<string, Entry>

  /**
   A validation reads the clock twice under its lock: for the key's expiry, then for its window. A
   registration reads it before it takes the lock, which is when now is.
   */
  datatype Call =
    | Register(keyHash: string, tier: string, orgId: string, limit: u32, readAt: int, now: int)
    | Validate(keyHash: string, checkedAt: int, now: int)

  /** Whole seconds of a duration, truncated toward zero. */
  function WholeSeconds(d: int): int {
    if d >= 0 then d / SECOND else -(-d / SECOND)
  }

  lemma WindowOver(d: int)
    ensures WholeSeconds(d) >= WINDOW_SECONDS <==> d >= WINDOW
  {
  }

  function Fresh(keyHash: string, tier: string, orgId: string, limit: u32, now: int): Entry {
    Entry(keyHash, tier, orgId, true, None, limit, 0, now)
  }

  /** The entry after the window check. */
  function Rolled(e: Entry, now: int): Entry {
    if WholeSeconds(now - e.lastRequest) >= WINDOW_SECONDS then e.(requestCount := 0, lastRequest := now) else e
  }

  /** Why a known key is refused, if it is. */
  function Refused(e: Entry, checkedAt: int, now: int): Option<Refusal> {
    if !e.enabled then Some(Disabled)
    else if e.expiresAt.Some? && checkedAt > e.expiresAt.value then Some(Expired)
    else if e.rateLimit > 0 && Rolled(e, now).requestCount >= e.rateLimit then Some(Exhausted)
    else None
  }

  /** The entry after a validation. */
  function Validated(e: Entry, checkedAt: int, now: int): Entry {
    match Refused(e, checkedAt, now)
    case None => var r := Rolled(e, now); r.(requestCount := Wrap32(r.requestCount + 1))
    case Some(Exhausted) => Rolled(e, now)
    case Some(_) => e
  }

  predicate Accepts(keys: Keys, call: Call) {
    call.Validate? && call.keyHash in keys && Refused(keys[call.keyHash], call.checkedAt, call.now).None?
  }

  function After(keys: Keys, call: Call): Keys {
    match call
    case Register(key, tier, org, limit, readAt, _) => keys[key := Fresh(key, tier, org, limit, readAt)]
    case Validate(key, checkedAt, now) =>
      if key in keys then keys[key := Validated(keys[key], checkedAt, now)] else keys
  }

  // ----- runs -----

  /** When a call takes the lock. */
  function Begins(call: Call): int {
    if call.Validate? then call.checkedAt else call.now
  }

  /** The clock does not go back, and calls follow one another under the lock. */
  ghost predicate Clocked(calls: seq<Call>) {
    && (forall i | 0 <= i < |calls| :: Begins(calls[i]) <= calls[i].now)
    && (forall i, j | 0 <= i < j < |calls| :: calls[i].now <= Begins(calls[j]))
  }

  lemma ClockForward(calls: seq<Call>, i: nat, j: nat)
    requires Clocked(calls) && i < j < |calls|
    ensures calls[i].now <= Begins(calls[j]) <= calls[j].now
  {
  }

  /** Calls that follow one key, which is not registered again. */
  ghost predicate Follows(states: seq<Keys>, calls: seq<Call>, key: string) {
    && |states| == |calls| + 1 && key in states[0]
    && (forall i | 0 <= i < |calls| :: states[i + 1] == After(states[i], calls[i]))
    && Clocked(calls)
    && (forall i | 0 <= i < |calls| :: calls[i].Register? ==> calls[i].keyHash != key)
  }

  /** A run that starts with the key's registration. Other keys come and go. */
  ghost predicate IsRun(states: seq<Keys>, calls: seq<Call>, key: string, start: int) {
    && Follows(states, calls, key)
    && states[0][key].requestCount == 0 && states[0][key].lastRequest == start
    && (forall i | 0 <= i < |calls| :: start <= calls[i].now)
  }

  /** An accepted validation of the key. */
  predicate Hit(keys: Keys, call: Call, key: string) {
    call.Validate? && call.keyHash == key && Accepts(keys, call)
  }

  /** The key's accepted validations, among the first i calls, at or after a time. */
  ghost function Since(states: seq<Keys>, calls: seq<Call>, key: string, i: nat, from: int): nat
    requires i <= |calls| < |states|
  {
    if i == 0 then 0
    else Since(states, calls, key, i - 1, from) +
         if Hit(states[i - 1], calls[i - 1], key) && from <= calls[i - 1].now then 1 else 0
  }

  /** The key's accepted validations, among the first i calls, in a half-open interval. */
  ghost function Within(states: seq<Keys>, calls: seq<Call>, key: string, i: nat, from: int, to: int): nat
    requires i <= |calls| < |states|
  {
    if i == 0 then 0
    else Within(states, calls, key, i - 1, from, to) +
         if Hit(states[i - 1], calls[i - 1], key) && from <= calls[i - 1].now < to then 1 else 0
  }

  lemma {:induction false} WithinAtMostSince(states: seq<Keys>, calls: seq<Call>, key: string, i: nat,
                                             from: int, to: int)
    requires i <= |calls| < |states|
    ensures Within(states, calls, key, i, from, to) <= Since(states, calls, key, i, from)
  {
    if i > 0 {
      WithinAtMostSince(states, calls, key, i - 1, from, to);
    }
  }

  lemma {:induction false} SinceShrinks(states: seq<Keys>, calls: seq<Call>, key: string, i: nat, from: int, later: int)
    requires i <= |calls| < |states| && from <= later
    ensures Since(states, calls, key, i, later) <= Since(states, calls, key, i, from)
  {
    if i > 0 {
      SinceShrinks(states, calls, key, i - 1, from, later);
    }
  }

  // ----- what the count means -----

  /** The entry's count is exact for its window, and the window before it was within the limit. */
  ghost predicate WindowExact(states: seq<Keys>, calls: seq<Call>, key: string, i: nat)
    requires i <= |calls| < |states|
  {
    && key in states[i]
    && var e := states[i][key];
       && e.requestCount == Wrap32(Since(states, calls, key, i, e.lastRequest))
       && Since(states, calls, key, i, e.lastRequest + WINDOW) == 0
       && (i > 0 ==> e.lastRequest <= calls[i - 1].now)
  }

  ghost predicate WithinLimit(states: seq<Keys>, calls: seq<Call>, key: string, i: nat)
    requires i <= |calls| < |states| && key in states[i]
  {
    var e := states[i][key];
    e.rateLimit > 0 ==>
      && Since(states, calls, key, i, e.lastRequest) == e.requestCount <= e.rateLimit
      && Since(states, calls, key, i, e.lastRequest - WINDOW + 1) <= e.requestCount + e.rateLimit
  }

  /** What one call does to the key's entry: stay in the window, or start a new one. */
  ghost predicate Moves(e: Entry, e': Entry, hit: bool, now: int) {
    var count := if hit then 1 else 0;
    && e'.rateLimit == e.rateLimit
    && (hit && e.rateLimit > 0 ==> e'.requestCount <= e.rateLimit && e'.requestCount > 0)
    && if e'.lastRequest == e.lastRequest then
         e'.requestCount == Wrap32(e.requestCount + count) && (hit ==> now < e.lastRequest + WINDOW)
       else e'.requestCount == count && e'.lastRequest == now >= e.lastRequest + WINDOW
  }

  lemma EntryMoves(states: seq<Keys>, calls: seq<Call>, key: string, i: nat)
    requires Follows(states, calls, key) && 0 < i <= |calls| && key in states[i - 1]
    ensures key in states[i]
    ensures Moves(states[i - 1][key], states[i][key], Hit(states[i - 1], calls[i - 1], key), calls[i - 1].now)
  {
    assert states[i] == After(states[i - 1], calls[i - 1]);
    WindowOver(calls[i - 1].now - states[i - 1][key].lastRequest);
  }

  /** The limit of a key does not change, nor does it become disabled or get another expiry. */
  lemma {:induction false} LimitFixed(states: seq<Keys>, calls: seq<Call>, key: string, i: nat)
    requires Follows(states, calls, key) && i <= |calls|
    ensures key in states[i]
    ensures var e, first := states[i][key], states[0][key];
            e.rateLimit == first.rateLimit && e.enabled == first.enabled && e.expiresAt == first.expiresAt
  {
    if i > 0 {
      LimitFixed(states, calls, key, i - 1);
      EntryMoves(states, calls, key, i);
      assert states[i] == After(states[i - 1], calls[i - 1]);
    }
  }

  lemma SinceStep(states: seq<Keys>, calls: seq<Call>, key: string, i: nat, from: int)
    requires 0 < i <= |calls| < |states|
    ensures Since(states, calls, key, i, from) == Since(states, calls, key, i - 1, from) +
            if Hit(states[i - 1], calls[i - 1], key) && from <= calls[i - 1].now then 1 else 0
  {
  }

  /** A count that is not 0 after an accept has not wrapped. */
  lemma SmallCount(count: nat, e': Entry, hit: bool)
    requires count <= TWO_32 && e'.requestCount == Wrap32(count) && (hit ==> e'.requestCount > 0)
    requires !hit ==> count < TWO_32
    ensures e'.requestCount == count
  {
    if count < TWO_32 {
      Wrap32Small(count);
    } else {
      ModOfMultiple(0, 1, TWO_32);
    }
  }

  lemma StartWindow(e: Entry, e': Entry, hit: bool, now: int)
    requires Moves(e, e', hit, now) && e'.lastRequest > e.lastRequest
    ensures e'.rateLimit == e.rateLimit && e'.lastRequest == now >= e.lastRequest + WINDOW
    ensures e'.requestCount == if hit then 1 else 0
  {
  }

  lemma StayInWindow(e: Entry, e': Entry, hit: bool, now: int)
    requires Moves(e, e', hit, now) && e'.lastRequest <= e.lastRequest
    ensures e'.rateLimit == e.rateLimit && e'.lastRequest == e.lastRequest && (hit ==> now < e.lastRequest + WINDOW)
    ensures e'.requestCount == Wrap32(e.requestCount + if hit then 1 else 0)
    ensures e.rateLimit > 0 && e.requestCount <= e.rateLimit ==>
              e'.requestCount == e.requestCount + (if hit then 1 else 0) <= e.rateLimit
  {
    if e.rateLimit > 0 {
      SmallCount(e.requestCount + if hit then 1 else 0, e', hit);
    }
  }

  /** The counts when a call starts a new window. */
  lemma ResetCounts(states: seq<Keys>, calls: seq<Call>, key: string, i: nat, last: int, now: int, hit: bool)
    requires 0 < i <= |calls| < |states| && calls[i - 1].now == now >= last + WINDOW
    requires hit == Hit(states[i - 1], calls[i - 1], key) && Since(states, calls, key, i - 1, last + WINDOW) == 0
    ensures Since(states, calls, key, i, now) == if hit then 1 else 0
    ensures Since(states, calls, key, i, now + WINDOW) == 0
    ensures Since(states, calls, key, i, now - WINDOW + 1) <=
            Since(states, calls, key, i - 1, last) + if hit then 1 else 0
  {
    hide Since, Hit;
    SinceStep(states, calls, key, i, now);
    SinceStep(states, calls, key, i, now + WINDOW);
    SinceStep(states, calls, key, i, now - WINDOW + 1);
    SinceShrinks(states, calls, key, i - 1, last + WINDOW, now);
    SinceShrinks(states, calls, key, i - 1, last + WINDOW, now + WINDOW);
    SinceShrinks(states, calls, key, i - 1, last, now - WINDOW + 1);
  }

  /** The counts when a call stays in its window. */
  lemma StayCounts(states: seq<Keys>, calls: seq<Call>, key: string, i: nat, last: int, now: int, hit: bool)
    requires 0 < i <= |calls| < |states| && calls[i - 1].now == now >= last && (hit ==> now < last + WINDOW)
    requires hit == Hit(states[i - 1], calls[i - 1], key) && Since(states, calls, key, i - 1, last + WINDOW) == 0
    ensures var count := if hit then 1 else 0;
            && Since(states, calls, key, i, last) == Since(states, calls, key, i - 1, last) + count
            && Since(states, calls, key, i, last + WINDOW) == 0
            && Since(states, calls, key, i, last - WINDOW + 1) ==
               Since(states, calls, key, i - 1, last - WINDOW + 1) + count
  {
    hide Since, Hit;
    SinceStep(states, calls, key, i, last);
    SinceStep(states, calls, key, i, last + WINDOW);
    SinceStep(states, calls, key, i, last - WINDOW + 1);
  }

  lemma Progress(states: seq<Keys>, calls: seq<Call>, key: string, start: int, i: nat)
    requires IsRun(states, calls, key, start) && 0 < i <= |calls| < |states|
    ensures key in states[i - 1] && key in states[i]
    ensures Moves(states[i - 1][key], states[i][key], Hit(states[i - 1], calls[i - 1], key), calls[i - 1].now)
    ensures states[i - 1][key].lastRequest <= calls[i - 1].now
    ensures states[i][key].lastRequest <= calls[i - 1].now
  {
    LastInThePast(states, calls, key, start, i);
    if i > 1 {
      LastInThePast(states, calls, key, start, i - 1);
    }
    EntryMoves(states, calls, key, i);
  }

  lemma NothingYet(states: seq<Keys>, calls: seq<Call>, key: string, start: int)
    requires IsRun(states, calls, key, start) && |calls| < |states|
    ensures key in states[0] && states[0][key].requestCount == Wrap32(0)
    ensures forall from :: Since(states, calls, key, 0, from) == 0
  {
  }

  /** The wrapped count follows the accepts in the window. */
  lemma CountStep(e: Entry, e': Entry, hit: bool, now: int, before: nat, after: nat)
    requires Moves(e, e', hit, now) && e.requestCount == Wrap32(before)
    requires var count := if hit then 1 else 0;
             after == if e'.lastRequest > e.lastRequest then count else before + count
    ensures e'.requestCount == Wrap32(after)
  {
    Wrap32Small(0);
    Wrap32Small(1);
    Wrap32Adds(before, if hit then 1 else 0);
    hide Wrap32;
    if e'.lastRequest > e.lastRequest {
      StartWindow(e, e', hit, now);
    } else {
      StayInWindow(e, e', hit, now);
    }
  }

  lemma {:induction false} WindowFacts(states: seq<Keys>, calls: seq<Call>, key: string, start: int, i: nat)
    requires IsRun(states, calls, key, start) && i <= |calls| < |states|
    ensures key in states[i]
    ensures states[i][key].requestCount == Wrap32(Since(states, calls, key, i, states[i][key].lastRequest))
    ensures Since(states, calls, key, i, states[i][key].lastRequest + WINDOW) == 0
  {
    hide *;
    if i > 0 {
      WindowFacts(states, calls, key, start, i - 1);
      Progress(states, calls, key, start, i);
      var e, e', now := states[i - 1][key], states[i][key], calls[i - 1].now;
      var hit := Hit(states[i - 1], calls[i - 1], key);
      if e'.lastRequest > e.lastRequest {
        StartWindow(e, e', hit, now);
        ResetCounts(states, calls, key, i, e.lastRequest, now, hit);
      } else {
        StayInWindow(e, e', hit, now);
        StayCounts(states, calls, key, i, e.lastRequest, now, hit);
      }
      CountStep(e, e', hit, now,
                Since(states, calls, key, i - 1, e.lastRequest), Since(states, calls, key, i, e'.lastRequest));
    } else {
      NothingYet(states, calls, key, start);
    }
  }

  /** At every moment of every run, the count is the number of accepts in the current window. */
  lemma CountIsWindow(states: seq<Keys>, calls: seq<Call>, key: string, start: int, i: nat)
    requires IsRun(states, calls, key, start) && i <= |calls|
    ensures WindowExact(states, calls, key, i)
  {
    WindowFacts(states, calls, key, start, i);
    if i > 0 {
      LastInThePast(states, calls, key, start, i);
    }
  }

  lemma {:induction false} LastInThePast(states: seq<Keys>, calls: seq<Call>, key: string, start: int, i: nat)
    requires IsRun(states, calls, key, start) && 0 < i <= |calls|
    ensures key in states[i] && start <= states[i][key].lastRequest <= calls[i - 1].now
  {
    LimitFixed(states, calls, key, i - 1);
    if i > 1 {
      LastInThePast(states, calls, key, start, i - 1);
      ClockForward(calls, i - 2, i - 1);
    }
    EntryMoves(states, calls, key, i);
  }

  /** One call and the limit: how many accepts there are since the window's start, and since 60 seconds before it. */
  lemma LimitStep(e: Entry, e': Entry, hit: bool, now: int, current: nat, recent: nat, current': nat, recent': nat)
    requires Moves(e, e', hit, now) && e.rateLimit > 0
    requires current == e.requestCount <= e.rateLimit && recent <= e.requestCount + e.rateLimit
    requires var count := if hit then 1 else 0;
             if e'.lastRequest > e.lastRequest then current' == count && recent' <= current + count
             else current' == current + count && recent' == recent + count
    ensures current' == e'.requestCount <= e'.rateLimit && recent' <= e'.requestCount + e'.rateLimit
  {
    if e'.lastRequest > e.lastRequest {
      StartWindow(e, e', hit, now);
    } else {
      StayInWindow(e, e', hit, now);
    }
  }

  lemma SameLimit(e: Entry, e': Entry, hit: bool, now: int)
    requires Moves(e, e', hit, now)
    ensures e'.rateLimit == e.rateLimit
  {
  }

  /** The limit at one moment, in plain numbers: accepts since the window's start, and since 60 seconds before it. */
  predicate Bounded(current: nat, recent: nat, count: nat, limit: nat) {
    limit > 0 ==> current == count <= limit && recent <= count + limit
  }

  lemma BoundedStep(e: Entry, e': Entry, hit: bool, now: int, current: nat, recent: nat, current': nat, recent': nat)
    requires Moves(e, e', hit, now) && Bounded(current, recent, e.requestCount, e.rateLimit)
    requires var count := if hit then 1 else 0;
             if e'.lastRequest > e.lastRequest then current' == count && recent' <= current + count
             else current' == current + count && recent' == recent + count
    ensures Bounded(current', recent', e'.requestCount, e'.rateLimit)
  {
    hide Moves;
    SameLimit(e, e', hit, now);
    if e.rateLimit > 0 {
      LimitStep(e, e', hit, now, current, recent, current', recent');
    }
  }

  /** One call keeps the limit. */
  lemma LimitKept(states: seq<Keys>, calls: seq<Call>, key: string, i: nat, e: Entry, e': Entry, hit: bool, now: int)
    requires 0 < i <= |calls| < |states| && calls[i - 1].now == now >= e.lastRequest
    requires hit == Hit(states[i - 1], calls[i - 1], key) && Moves(e, e', hit, now)
    requires Since(states, calls, key, i - 1, e.lastRequest + WINDOW) == 0
    requires Bounded(Since(states, calls, key, i - 1, e.lastRequest),
                     Since(states, calls, key, i - 1, e.lastRequest - WINDOW + 1), e.requestCount, e.rateLimit)
    ensures Bounded(Since(states, calls, key, i, e'.lastRequest),
                    Since(states, calls, key, i, e'.lastRequest - WINDOW + 1), e'.requestCount, e'.rateLimit)
  {
    hide *;
    if e'.lastRequest > e.lastRequest {
      StartWindow(e, e', hit, now);
      ResetCounts(states, calls, key, i, e.lastRequest, now, hit);
    } else {
      StayInWindow(e, e', hit, now);
      StayCounts(states, calls, key, i, e.lastRequest, now, hit);
    }
    BoundedStep(e, e', hit, now,
                Since(states, calls, key, i - 1, e.lastRequest),
                Since(states, calls, key, i - 1, e.lastRequest - WINDOW + 1),
                Since(states, calls, key, i, e'.lastRequest),
                Since(states, calls, key, i, e'.lastRequest - WINDOW + 1));
  }

  lemma LimitAtStart(states: seq<Keys>, calls: seq<Call>, key: string, start: int)
    requires IsRun(states, calls, key, start) && |calls| < |states|
    ensures key in states[0]
    ensures Bounded(Since(states, calls, key, 0, states[0][key].lastRequest),
                    Since(states, calls, key, 0, states[0][key].lastRequest - WINDOW + 1),
                    states[0][key].requestCount, states[0][key].rateLimit)
  {
  }

  lemma {:induction false} LimitFacts(states: seq<Keys>, calls: seq<Call>, key: string, start: int, i: nat)
    requires IsRun(states, calls, key, start) && i <= |calls| < |states|
    ensures key in states[i]
    ensures Bounded(Since(states, calls, key, i, states[i][key].lastRequest),
                    Since(states, calls, key, i, states[i][key].lastRequest - WINDOW + 1),
                    states[i][key].requestCount, states[i][key].rateLimit)
  {
    hide *;
    if i == 0 {
      LimitAtStart(states, calls, key, start);
    } else {
      LimitFacts(states, calls, key, start, i - 1);
      WindowFacts(states, calls, key, start, i - 1);
      Progress(states, calls, key, start, i);
      LimitKept(states, calls, key, i, states[i - 1][key], states[i][key],
                Hit(states[i - 1], calls[i - 1], key), calls[i - 1].now);
    }
  }

  /** The current window and any accepts less than 60 seconds before it stay within twice the limit. */
  lemma WindowsWithinLimit(states: seq<Keys>, calls: seq<Call>, key: string, start: int, i: nat)
    requires IsRun(states, calls, key, start) && i <= |calls|
    ensures key in states[i] && WithinLimit(states, calls, key, i)
  {
    LimitFacts(states, calls, key, start, i);
  }

  /** In every run, every half-open 60-second interval sees at most twice the limit of accepts. */
  lemma {:induction false} AtMostTwiceTheLimit(states: seq<Keys>, calls: seq<Call>, key: string, start: int, i: nat,
                                               from: int)
    requires IsRun(states, calls, key, start) && i <= |calls| && states[0][key].rateLimit > 0
    ensures Within(states, calls, key, i, from, from + WINDOW) <= 2 * states[0][key].rateLimit
  {
    if i > 0 {
      if Hit(states[i - 1], calls[i - 1], key) && from <= calls[i - 1].now < from + WINDOW {
        var e := states[i][key];
        CountIsWindow(states, calls, key, start, i);
        WindowsWithinLimit(states, calls, key, start, i);
        LimitFixed(states, calls, key, i);
        WithinAtMostSince(states, calls, key, i, from, from + WINDOW);
        SinceShrinks(states, calls, key, i, e.lastRequest - WINDOW + 1, from);
      } else {
        AtMostTwiceTheLimit(states, calls, key, start, i - 1, from);
      }
    }
  }

  // ----- the manager -----

  /** A refused validation leaves its key as it is; the window test in seconds is one in nanoseconds. */
  lemma RefusedKept(keys: Keys, key: string, checkedAt: int, now: int)
    ensures !Accepts(keys, Validate(key, checkedAt, now)) ==> After(keys, Validate(key, checkedAt, now)) == keys
    ensures key in keys ==>
              (WholeSeconds(now - keys[key].lastRequest) >= 60 <==> now - keys[key].lastRequest >= 60_000_000_000)
  {
    if key in keys {
      WindowOver(now - keys[key].lastRequest);
    }
  }

  /** SHA-256 is a parameter: keys arrive hashed. */
  class AuthManager {
    const authEnabled: bool
    var apiKeys: Keys

    constructor (authEnabled: bool)
      ensures this.authEnabled == authEnabled && apiKeys == map[]
    {
      this.authEnabled := authEnabled;
      apiKeys := map[];
    }

    /** The limit is the one of the tier's table entry. */
    method RegisterKey(keyHash: string, tier: string, orgId: string, limit: u32, readAt: int)
      modifies this
      ensures apiKeys == old(apiKeys)[keyHash := Entry(keyHash, tier, orgId, true, None, limit, 0, readAt)]
    {
      apiKeys := apiKeys[keyHash := Entry(keyHash, tier, orgId, true, None, limit, 0, readAt)];
    }

    method ValidateKey(keyHash: string, checkedAt: int, now: int) returns (result: Result<Entry, Refusal>)
      modifies this
      ensures !authEnabled ==>
                && result == Ok(Entry("disabled", "enterprise", "default", true, None, 0, 0, checkedAt))
                && apiKeys == old(apiKeys)
      ensures authEnabled ==>
                && apiKeys == After(old(apiKeys), Validate(keyHash, checkedAt, now))
                && (result.Ok? <==> old(Accepts(apiKeys, Validate(keyHash, checkedAt, now))))
                && (result.Ok? ==> result.value == apiKeys[keyHash])
                && (result.Err? ==> apiKeys == old(apiKeys))
      ensures authEnabled && keyHash !in old(apiKeys) ==> result == Err(Unknown)
      ensures authEnabled && keyHash in old(apiKeys) ==>
                var e := old(apiKeys[keyHash]);
                var expired := e.expiresAt.Some? && checkedAt > e.expiresAt.value;
                && (!e.enabled ==> result == Err(Disabled))
                && (e.enabled && expired ==> result == Err(Expired))
                && (e.enabled && !expired ==>
                      if e.rateLimit == 0 || now - e.lastRequest >= 60_000_000_000 || e.requestCount < e.rateLimit
                      then
                        && result.Ok?
                        && result.value.(requestCount := e.requestCount, lastRequest := e.lastRequest) == e
                      else result == Err(Exhausted))
    {
      RefusedKept(apiKeys, keyHash, checkedAt, now);
      if !authEnabled {
        return Ok(Entry("disabled", "enterprise", "default", true, None, 0, 0, checkedAt));
      }
      if keyHash !in apiKeys {
        return Err(Unknown);
      }
      var entry := apiKeys[keyHash];
      if !entry.enabled {
        return Err(Disabled);
      }
      if entry.expiresAt.Some? && checkedAt > entry.expiresAt.value {
        return Err(Expired);
      }
      if WholeSeconds(now - entry.lastRequest) >= WINDOW_SECONDS {
        entry := entry.(requestCount := 0, lastRequest := now);
        apiKeys := apiKeys[keyHash := entry];
      }
      if entry.rateLimit > 0 && entry.requestCount >= entry.rateLimit {
        return Err(Exhausted);
      }
      entry := entry.(requestCount := Wrap32(entry.requestCount + 1));
      apiKeys := apiKeys[keyHash := entry];
      result := Ok(entry);
    }
  }
}
