/**
 Which requests the rate limiter (src/grpc/auth.rs) lets through, in every run, told from the requests
 it has let through before.
 */
module RateGrants {
  import opened RateLimiter
  import opened Wrappers

  /** A key without a limit that is enabled and not expired is never refused. */
  lemma UnlimitedGranted(states: seq<Keys>, calls: seq<Call>, key: string, i: nat)
    requires Follows(states, calls, key) && i < |calls| && calls[i].Validate? && calls[i].keyHash == key
    requires var e := states[0][key];
             && e.enabled && (e.expiresAt.Some? ==> calls[i].checkedAt <= e.expiresAt.value) && e.rateLimit == 0
    ensures Hit(states[i], calls[i], key)
  {
    LimitFixed(states, calls, key, i);
  }

  /** With a limit it is refused exactly when its window is under way and holds as many accepts as the limit. */
  lemma LimitedGranted(states: seq<Keys>, calls: seq<Call>, key: string, start: int, i: nat)
    requires IsRun(states, calls, key, start) && i < |calls| && calls[i].Validate? && calls[i].keyHash == key
    requires var e := states[0][key];
             && e.enabled && (e.expiresAt.Some? ==> calls[i].checkedAt <= e.expiresAt.value) && e.rateLimit > 0
    ensures key in states[i]
    ensures var from := states[i][key].lastRequest;
            Hit(states[i], calls[i], key) <==>
            calls[i].now >= from + 60_000_000_000 || Since(states, calls, key, i, from) < states[0][key].rateLimit
  {
    LimitFixed(states, calls, key, i);
    WindowsWithinLimit(states, calls, key, start, i);
    WindowOver(calls[i].now - states[i][key].lastRequest);
    hide Since, WholeSeconds;
  }

  /** A window was opened by an accepted request, or by the registration. */
  lemma {:induction false} WindowOpened(states: seq<Keys>, calls: seq<Call>, key: string, start: int, i: nat)
    requires IsRun(states, calls, key, start) && i <= |calls|
    ensures key in states[i]
    ensures states[i][key].lastRequest == start ||
            exists j :: 0 <= j < i && Hit(states[j], calls[j], key) && calls[j].now == states[i][key].lastRequest
  {
    if i > 0 {
      WindowOpened(states, calls, key, start, i - 1);
      EntryMoves(states, calls, key, i);
      if states[i][key].lastRequest != states[i - 1][key].lastRequest {
        OpenedByHit(states, calls, key, i);
      }
    }
  }

  lemma OpenedByHit(states: seq<Keys>, calls: seq<Call>, key: string, i: nat)
    requires Follows(states, calls, key) && 0 < i <= |calls| && key in states[i - 1] && key in states[i]
    requires states[i][key].lastRequest != states[i - 1][key].lastRequest
    ensures Hit(states[i - 1], calls[i - 1], key) && calls[i - 1].now == states[i][key].lastRequest
  {
    assert states[i] == After(states[i - 1], calls[i - 1]);
  }
}
