/**
 The size-bounded cache (src/uao_qtcam_cache.rs) as one caller at a time sees it: set with eviction,
 get with expiry, delete and clear, the byte accounting they share, and whole runs of them.
 */
module CacheStore {
  import opened CacheCodec
  import opened MachineIntegers
  import opened MapSums
  import opened NumberTheory
  import opened Wrappers

  datatype Entry = Entry(compressed: Bytes, originalSize: nat, createdAt: s64, lastAccessed: s64,
                         accessCount: nat, ttl: u64)

  type Entries = map<string, Entry>

  datatype Config = Config(maxSize: nat, ratio: int)

  datatype Cache = Cache(entries: Entries, size: int)

  datatype Op =
    | Set(key: string, value: Bytes, ttl: u64, now: s64)
    | Get(key: string, now: s64)
    | Delete(key: string)
    | Clear

  // ----- accounting -----

  function SizeOf(e: Entry): nat {
    |e.compressed|
  }

  ghost function Weight(): Entry -> nat {
    e => SizeOf(e)
  }

  /** The compressed bytes of all entries. */
  ghost function TotalSize(entries: Entries): nat {
    SumOf(entries, Weight())
  }

  ghost predicate Accounted(c: Cache) {
    c.size == TotalSize(c.entries)
  }

  // ----- eviction -----

  /** Lower scores leave first. */
  function Score(e: Entry): real {
    e.lastAccessed as real * 0.4 + e.accessCount as real * 0.6
  }

  ghost predicate Distinct(keys: seq<string>) {
    forall i, j | 0 <= i < j < |keys| :: keys[i] != keys[j]
  }

  ghost function Elements(keys: seq<string>): set<string> {
    set k | k in keys
  }

  ghost predicate Ordered(entries: Entries, keys: seq<string>)
    requires Elements(keys) <= entries.Keys
  {
    forall i, j | 0 <= i < j < |keys| ::
      keys[i] in entries && keys[j] in entries && Score(entries[keys[i]]) <= Score(entries[keys[j]])
  }

  /** The bytes of the listed entries. */
  ghost function Freed(entries: Entries, keys: seq<string>): nat
    requires Elements(keys) <= entries.Keys
  {
    if keys == [] then 0
    else
      var last := keys[|keys| - 1];
      assert last in Elements(keys) && Elements(keys[..|keys| - 1]) <= Elements(keys);
      Freed(entries, keys[..|keys| - 1]) + SizeOf(entries[last])
  }

  /** The shortest lowest-score list of entries that frees enough, or all entries. */
  ghost predicate IsEviction(entries: Entries, evicted: seq<string>, needed: nat) {
    && Elements(evicted) <= entries.Keys && Distinct(evicted) && Ordered(entries, evicted)
    && (forall k, k' | k in Elements(evicted) && k' in entries.Keys - Elements(evicted) ::
          Score(entries[k]) <= Score(entries[k']))
    && (Freed(entries, evicted) >= needed || Elements(evicted) == entries.Keys)
    && (forall n | 0 <= n < |evicted| ::
          Elements(evicted[..n]) <= entries.Keys && Freed(entries, evicted[..n]) < needed)
  }

  /** What making room for newSize bytes evicts. */
  ghost predicate MakesRoom(config: Config, c: Cache, newSize: nat, evicted: seq<string>) {
    if c.size + newSize <= config.maxSize then evicted == []
    else IsEviction(c.entries, evicted, c.size + newSize - config.maxSize)
  }

  lemma {:induction false} EvictionFrees(entries: Entries, keys: seq<string>)
    requires Elements(keys) <= entries.Keys && Distinct(keys)
    ensures TotalSize(entries - Elements(keys)) + Freed(entries, keys) == TotalSize(entries)
  {
    if keys == [] {
      assert entries - Elements(keys) == entries;
    } else {
      var rest, last := keys[..|keys| - 1], keys[|keys| - 1];
      assert Elements(keys) == Elements(rest) + {last};
      EvictionFrees(entries, rest);
      assert last !in Elements(rest);
      SumAfterRemove(entries - Elements(rest), last, Weight());
      assert entries - Elements(rest) - {last} == entries - Elements(keys);
    }
  }

  lemma {:induction false} FreedGrows(entries: Entries, keys: seq<string>, n: nat)
    requires Elements(keys) <= entries.Keys && n <= |keys|
    ensures Elements(keys[..n]) <= entries.Keys && Freed(entries, keys[..n]) <= Freed(entries, keys)
  {
    if n == |keys| {
      assert keys[..n] == keys;
    } else {
      var rest := keys[..|keys| - 1];
      assert Elements(rest) <= Elements(keys);
      FreedGrows(entries, rest, n);
      assert rest[..n] == keys[..n];
    }
  }

  ghost predicate DistinctScores(entries: Entries) {
    forall k, k' | k in entries && k' in entries && k != k' :: Score(entries[k]) != Score(entries[k'])
  }

  /** Two evictions agree on every position both have. */
  lemma {:induction false} EvictionsAgree(entries: Entries, a: seq<string>, b: seq<string>, needed: nat, n: nat)
    requires IsEviction(entries, a, needed) && IsEviction(entries, b, needed) && DistinctScores(entries)
    requires n <= |a| && n <= |b|
    ensures a[..n] == b[..n]
  {
    hide Freed, Score, Distinct, Ordered, DistinctScores;
    if n > 0 {
      EvictionsAgree(entries, a, b, needed, n - 1);
      SameAt(entries, a, b, needed, n - 1);
      assert a[..n] == a[..n - 1] + [a[n - 1]] && b[..n] == b[..n - 1] + [b[n - 1]];
    }
  }

  lemma SameAt(entries: Entries, a: seq<string>, b: seq<string>, needed: nat, i: nat)
    requires IsEviction(entries, a, needed) && IsEviction(entries, b, needed) && DistinctScores(entries)
    requires i < |a| && i < |b| && a[..i] == b[..i]
    ensures a[i] == b[i]
  {
    NotBefore(a, i);
    NotBefore(b, i);
    assert a[i] in Elements(a) && b[i] in Elements(b);
    hide IsEviction, Score;
    NoLower(entries, a, needed, i, b[i]);
    NoLower(entries, b, needed, i, a[i]);
  }

  lemma NotBefore(keys: seq<string>, i: nat)
    requires Distinct(keys) && i < |keys|
    ensures keys[i] !in keys[..i]
  {
  }

  /** Whatever is not evicted before position i scores at least as high as what is evicted there. */
  lemma NoLower(entries: Entries, a: seq<string>, needed: nat, i: nat, k: string)
    requires IsEviction(entries, a, needed) && i < |a| && k in entries && k !in a[..i]
    ensures a[i] in entries && Score(entries[a[i]]) <= Score(entries[k])
  {
    hide Freed, Score;
    assert a[i] in Elements(a);
    assert forall j | 0 <= j < i :: a[j] == a[..i][j];
    if k in a {
      var j :| 0 <= j < |a| && a[j] == k;
    } else {
      assert k in entries.Keys - Elements(a);
    }
  }

  lemma NotLonger(entries: Entries, a: seq<string>, b: seq<string>, needed: nat)
    requires IsEviction(entries, a, needed) && IsEviction(entries, b, needed) && DistinctScores(entries)
    ensures |b| <= |a|
  {
    if |a| < |b| {
      EvictionsAgree(entries, a, b, needed, |a|);
      assert a[..|a|] == a;
      ProperPrefixMisses(entries, b, |a|);
    }
  }

  lemma ProperPrefixMisses(entries: Entries, keys: seq<string>, n: nat)
    requires Elements(keys) <= entries.Keys && Distinct(keys) && n < |keys|
    ensures Elements(keys[..n]) != entries.Keys
  {
    assert keys[n] in Elements(keys) && keys[n] !in Elements(keys[..n]);
  }

  /** Without ties in the scores, what is evicted is fully determined. */
  lemma EvictionUnique(entries: Entries, a: seq<string>, b: seq<string>, needed: nat)
    requires IsEviction(entries, a, needed) && IsEviction(entries, b, needed) && DistinctScores(entries)
    ensures a == b
  {
    NotLonger(entries, a, b, needed);
    NotLonger(entries, b, a, needed);
    EvictionsAgree(entries, a, b, needed, |a|);
    assert a[..|a|] == a && b[..|b|] == b;
  }

  // ----- the operations on values -----

  /** When the code lets an entry expire: the time-to-live is cast to a signed number, and the sum wraps. */
  function Deadline(createdAt: s64, ttl: u64): s64 {
    WrapSigned(createdAt + AsSigned(ttl))
  }

  predicate Expired(e: Entry, now: s64) {
    e.ttl > 0 && now > Deadline(e.createdAt, e.ttl)
  }

  lemma DeadlineExact(createdAt: s64, ttl: u64)
    requires createdAt >= 0
    ensures if createdAt + ttl < TWO_63 then Deadline(createdAt, ttl) == createdAt + ttl
            else Deadline(createdAt, ttl) < createdAt
  {
    var sum := createdAt + AsSigned(ttl);
    if sum < 0 {
      ModOfMultiple(sum + TWO_64, -1, TWO_64);
      Wrap64Small(sum + TWO_64);
    } else {
      Wrap64Small(sum);
    }
  }

  /** From its creation on, an entry expires when its time is over, or at once if that is beyond the 64-bit clock. */
  lemma ExpiresExactly(e: Entry, now: s64)
    requires 0 <= e.createdAt <= now
    ensures Expired(e, now) <==> e.ttl > 0 && (now > e.createdAt + e.ttl || e.createdAt + e.ttl >= TWO_63)
  {
    DeadlineExact(e.createdAt, e.ttl);
  }

  ghost function Stored(config: Config, value: Bytes, ttl: u64, now: s64): Entry
    requires config.ratio >= 1
  {
    Entry(Compressed(value, config.ratio), |value|, now, now, 0, ttl)
  }

  /** Add or replace an entry and account for it. */
  ghost function Put(c: Cache, key: string, e: Entry): Cache {
    Cache(c.entries[key := e], c.size - (if key in c.entries then SizeOf(c.entries[key]) else 0) + SizeOf(e))
  }

  ghost function Evict(c: Cache, evicted: seq<string>): Cache
    requires Elements(evicted) <= c.entries.Keys
  {
    Cache(c.entries - Elements(evicted), c.size - Freed(c.entries, evicted))
  }

  ghost function Drop(c: Cache, key: string): Cache {
    if key in c.entries then Cache(c.entries - {key}, c.size - SizeOf(c.entries[key])) else c
  }

  ghost function Touch(e: Entry, now: s64): Entry {
    e.(lastAccessed := now, accessCount := e.accessCount + 1)
  }

  ghost function Fetch(c: Cache, key: string, now: s64): Cache {
    if key !in c.entries then c
    else if Expired(c.entries[key], now) then Drop(c, key)
    else c.(entries := c.entries[key := Touch(c.entries[key], now)])
  }

  /** What a get returns. */
  ghost function Answer(c: Cache, key: string, now: s64): Option<Bytes> {
    if key in c.entries && !Expired(c.entries[key], now)
    then Some(Decompressed(c.entries[key].compressed, c.entries[key].originalSize))
    else None
  }

  ghost predicate SetStep(config: Config, c: Cache, op: Op, evicted: seq<string>, c': Cache)
    requires config.ratio >= 1 && op.Set?
  {
    var e := Stored(config, op.value, op.ttl, op.now);
    && Elements(evicted) <= c.entries.Keys && MakesRoom(config, c, SizeOf(e), evicted)
    && c' == Put(Evict(c, evicted), op.key, e)
  }

  ghost predicate Step(config: Config, c: Cache, op: Op, c': Cache)
    requires config.ratio >= 1
  {
    match op
    case Set(_, _, _, _) => exists evicted :: SetStep(config, c, op, evicted, c')
    case Get(key, now) => c' == Fetch(c, key, now)
    case Delete(key) => c' == Drop(c, key)
    case Clear => c' == Cache(map[], 0)
  }

  // ----- accounting and capacity -----

  lemma PutAccounts(c: Cache, key: string, e: Entry)
    requires Accounted(c)
    ensures Accounted(Put(c, key, e))
    ensures key in c.entries ==> SizeOf(c.entries[key]) <= c.size
  {
    hide SumOf;
    if key in c.entries {
      SumAfterReplace(c.entries, key, e, Weight());
      SumAfterRemove(c.entries, key, Weight());
    } else {
      SumAfterInsert(c.entries, key, e, Weight());
    }
  }

  lemma DropAccounts(c: Cache, key: string)
    requires Accounted(c)
    ensures Accounted(Drop(c, key)) && (key in c.entries ==> SizeOf(c.entries[key]) <= c.size)
  {
    hide SumOf;
    if key in c.entries {
      SumAfterRemove(c.entries, key, Weight());
    }
  }

  lemma EvictAccounts(c: Cache, evicted: seq<string>)
    requires Accounted(c) && Elements(evicted) <= c.entries.Keys && Distinct(evicted)
    ensures Accounted(Evict(c, evicted))
  {
    EvictionFrees(c.entries, evicted);
  }

  lemma FetchAccounts(c: Cache, key: string, now: s64)
    requires Accounted(c)
    ensures Accounted(Fetch(c, key, now))
  {
    hide SumOf;
    DropAccounts(c, key);
    if key in c.entries {
      SumAfterReplace(c.entries, key, Touch(c.entries[key], now), Weight());
    }
  }

  /** Every operation keeps the accounting. */
  lemma StepAccounts(config: Config, c: Cache, op: Op, c': Cache)
    requires config.ratio >= 1 && Accounted(c) && Step(config, c, op, c')
    ensures Accounted(c')
  {
    hide TotalSize;
    match op
    case Set(key, value, ttl, now) =>
      var evicted :| SetStep(config, c, op, evicted, c');
      EvictAccounts(c, evicted);
      PutAccounts(Evict(c, evicted), key, Stored(config, value, ttl, now));
    case Get(key, now) => FetchAccounts(c, key, now);
    case Delete(key) => DropAccounts(c, key);
    case Clear =>
      EmptyTotal();
  }

  lemma EmptyTotal()
    ensures TotalSize(map[]) == 0
  {
    var none: Entries := map[];
    assert none.Keys == {};
  }

  /** After a set the cache is within its capacity exactly when the new entry alone is. */
  lemma SetCapacity(config: Config, c: Cache, op: Op, c': Cache)
    requires config.ratio >= 1 && op.Set? && Accounted(c) && Step(config, c, op, c')
    ensures c'.size <= config.maxSize <==> |Compressed(op.value, config.ratio)| <= config.maxSize
  {
    hide SumOf, Compressed;
    var evicted :| SetStep(config, c, op, evicted, c');
    var e, roomy := Stored(config, op.value, op.ttl, op.now), Evict(c, evicted);
    EvictAccounts(c, evicted);
    PutAccounts(roomy, op.key, e);
    if Elements(evicted) == c.entries.Keys {
      assert roomy.entries == map[];
      EmptyTotal();
    }
    SumAfterRemove(c'.entries, op.key, Weight());
  }

  /** A set that is too big for the cache leaves nothing but its own entry. */
  lemma OversizedSetEmpties(config: Config, c: Cache, op: Op, c': Cache)
    requires config.ratio >= 1 && op.Set? && Accounted(c) && Step(config, c, op, c')
    requires |Compressed(op.value, config.ratio)| > config.maxSize
    ensures c'.entries == map[op.key := Stored(config, op.value, op.ttl, op.now)]
  {
    hide SumOf, Compressed;
    var evicted :| SetStep(config, c, op, evicted, c');
    EvictionFrees(c.entries, evicted);
    assert Elements(evicted) == c.entries.Keys;
    assert Evict(c, evicted).entries == map[];
  }

  // ----- whole runs -----

  ghost predicate IsRun(config: Config, states: seq<Cache>, ops: seq<Op>)
    requires config.ratio >= 1
  {
    && |states| == |ops| + 1 && states[0] == Cache(map[], 0)
    && forall i | 0 <= i < |ops| :: Step(config, states[i], ops[i], states[i + 1])
  }

  /** The value last set under a key. */
  ghost function LastSet(ops: seq<Op>, key: string): Option<Bytes> {
    if ops == [] then None
    else
      var op := ops[|ops| - 1];
      if op.Set? && op.key == key then Some(op.value) else LastSet(ops[..|ops| - 1], key)
  }

  /** The entry is a compressed form of the value. */
  ghost predicate Holds(config: Config, e: Entry, value: Option<Bytes>)
    requires config.ratio >= 1
  {
    value.Some? && e.compressed == Compressed(value.value, config.ratio) && e.originalSize == |value.value|
  }

  ghost predicate Faithful(config: Config, c: Cache, ops: seq<Op>)
    requires config.ratio >= 1
  {
    forall key | key in c.entries :: Holds(config, c.entries[key], LastSet(ops, key))
  }

  /** Every operation leaves every entry with the value last set under its key. */
  lemma StepFaithful(config: Config, c: Cache, ops: seq<Op>, op: Op, c': Cache)
    requires config.ratio >= 1 && Faithful(config, c, ops) && Step(config, c, op, c')
    ensures Faithful(config, c', ops + [op])
  {
    hide Compressed, SumOf, MakesRoom, Freed;
    assert (ops + [op])[..|ops|] == ops;
    forall key | key in c'.entries ensures Holds(config, c'.entries[key], LastSet(ops + [op], key)) {
      assert key in c.entries ==> Holds(config, c.entries[key], LastSet(ops, key));
    }
  }

  lemma StartInvariant(config: Config)
    requires config.ratio >= 1
    ensures Accounted(Cache(map[], 0)) && Faithful(config, Cache(map[], 0), [])
  {
    EmptyTotal();
  }

  /** In every run the accounting is exact and every entry holds the value last set under its key. */
  lemma {:induction false} RunInvariant(config: Config, states: seq<Cache>, ops: seq<Op>, i: nat)
    requires config.ratio >= 1 && IsRun(config, states, ops) && i <= |ops|
    ensures Accounted(states[i]) && Faithful(config, states[i], ops[..i])
  {
    hide Accounted, Faithful, Step;
    if i == 0 {
      StartInvariant(config);
    } else {
      RunInvariant(config, states, ops, i - 1);
      StepAccounts(config, states[i - 1], ops[i - 1], states[i]);
      StepFaithful(config, states[i - 1], ops[..i - 1], ops[i - 1], states[i]);
      assert ops[..i] == ops[..i - 1] + [ops[i - 1]];
    }
  }

  /** Every hit answers with what the codec keeps of the value last set under the key. */
  lemma HitReturnsLastSet(config: Config, states: seq<Cache>, ops: seq<Op>, i: nat)
    requires config.ratio >= 1 && IsRun(config, states, ops) && i < |ops| && ops[i].Get?
    ensures var answer, last := Answer(states[i], ops[i].key, ops[i].now), LastSet(ops[..i], ops[i].key);
            answer.Some? ==>
              && last.Some? && answer.value == Decompressed(Compressed(last.value, config.ratio), |last.value|)
              && (config.ratio == 1 ==> answer == last)
  {
    RunInvariant(config, states, ops, i);
    hide Compressed, Decompressed, TotalSize;
    var last := LastSet(ops[..i], ops[i].key);
    if Answer(states[i], ops[i].key, ops[i].now).Some? && config.ratio == 1 {
      LosslessIff(|last.value|, 1);
    }
  }

  // ----- what is found -----

  /** The operation neither replaces, deletes, clears nor evicts the key's entry, nor finds it expired. */
  ghost predicate Leaves(config: Config, c: Cache, op: Op, c': Cache, key: string)
    requires config.ratio >= 1
  {
    match op
    case Set(other, _, _, _) => other != key && !exists evicted :: SetStep(config, c, op, evicted, c') && key in evicted
    case Get(other, now) => other == key ==> key in c.entries && !Expired(c.entries[key], now)
    case Delete(other) => other != key
    case Clear => false
  }

  /** Operation i set the key, and nothing up to the n-th has touched its entry since. */
  ghost predicate StandsSince(config: Config, states: seq<Cache>, ops: seq<Op>, i: nat, n: nat, key: string)
    requires config.ratio >= 1 && |states| == |ops| + 1 && n <= |ops|
  {
    && i < n && ops[i].Set? && ops[i].key == key
    && forall j | i < j < n :: Leaves(config, states[j], ops[j], states[j + 1], key)
  }

  /** The entry is the one that operation i stored, apart from its access times. */
  ghost predicate StoredBy(config: Config, e: Entry, op: Op)
    requires config.ratio >= 1 && op.Set?
  {
    && e.compressed == Compressed(op.value, config.ratio) && e.originalSize == |op.value|
    && e.createdAt == op.now && e.ttl == op.ttl
  }

  lemma LeftEntry(config: Config, c: Cache, op: Op, c': Cache, key: string)
    requires config.ratio >= 1 && Step(config, c, op, c') && Leaves(config, c, op, c', key)
    ensures key in c'.entries <==> key in c.entries
    ensures key in c.entries ==>
              c'.entries[key].(lastAccessed := c.entries[key].lastAccessed, accessCount := c.entries[key].accessCount)
              == c.entries[key]
  {
    hide Compressed, SumOf, MakesRoom, Freed;
    if op.Set? {
      var evicted :| SetStep(config, c, op, evicted, c');
      assert key !in evicted;
    }
  }

  /** A set entry that nothing has touched is still there. */
  lemma {:induction false} StandingEntry(config: Config, states: seq<Cache>, ops: seq<Op>, i: nat, n: nat, key: string)
    requires config.ratio >= 1 && IsRun(config, states, ops) && n <= |ops|
    requires StandsSince(config, states, ops, i, n, key)
    ensures key in states[n].entries && StoredBy(config, states[n].entries[key], ops[i])
  {
    hide Compressed, SumOf, MakesRoom, Freed, Leaves;
    if i == n - 1 {
      assert Step(config, states[i], ops[i], states[n]);
    } else {
      StandingEntry(config, states, ops, i, n - 1, key);
      LeftEntry(config, states[n - 1], ops[n - 1], states[n], key);
    }
  }

  /** An entry that is there was set at some point, and nothing has touched it since. */
  lemma {:induction false} EntryStands(config: Config, states: seq<Cache>, ops: seq<Op>, n: nat, key: string)
    returns (i: nat)
    requires config.ratio >= 1 && IsRun(config, states, ops) && n <= |ops| && key in states[n].entries
    ensures StandsSince(config, states, ops, i, n, key)
  {
    var c, op, c' := states[n - 1], ops[n - 1], states[n];
    assert Step(config, c, op, c');
    if op.Set? && op.key == key {
      i := n - 1;
    } else {
      EntryKept(config, c, op, c', key);
      i := EntryStands(config, states, ops, n - 1, key);
    }
  }

  lemma EntryKept(config: Config, c: Cache, op: Op, c': Cache, key: string)
    requires config.ratio >= 1 && Step(config, c, op, c') && key in c'.entries && !(op.Set? && op.key == key)
    ensures key in c.entries && Leaves(config, c, op, c', key)
  {
    hide Compressed, SumOf, MakesRoom, Freed;
    if op.Set? {
      forall evicted | SetStep(config, c, op, evicted, c') ensures key !in evicted {
        assert key in Elements(evicted) <==> key in evicted;
      }
    }
  }

  ghost predicate Outlived(op: Op, now: s64)
    requires op.Set?
  {
    op.ttl > 0 && now > Deadline(op.now, op.ttl)
  }

  /** In every run, a get finds the key exactly when some set of it still stands and has not outlived its time. */
  lemma FoundIff(config: Config, states: seq<Cache>, ops: seq<Op>, n: nat, key: string, now: s64)
    requires config.ratio >= 1 && IsRun(config, states, ops) && n <= |ops|
    ensures Answer(states[n], key, now).Some? <==>
            exists i :: 0 <= i < n && StandsSince(config, states, ops, i, n, key) && !Outlived(ops[i], now)
  {
    assert |states| == |ops| + 1;
    hide IsRun, Decompressed, Compressed, Leaves;
    if Answer(states[n], key, now).Some? {
      var i := EntryStands(config, states, ops, n, key);
      StandingEntry(config, states, ops, i, n, key);
      assert StandsSince(config, states, ops, i, n, key) && !Outlived(ops[i], now);
    }
    if i :| 0 <= i < n && StandsSince(config, states, ops, i, n, key) && !Outlived(ops[i], now) {
      StandingEntry(config, states, ops, i, n, key);
    }
  }

  /** In every run, after each set that fits, the cache is within its capacity. */
  lemma RunCapacity(config: Config, states: seq<Cache>, ops: seq<Op>, i: nat)
    requires config.ratio >= 1 && IsRun(config, states, ops) && i < |ops| && ops[i].Set?
    ensures states[i + 1].size <= config.maxSize <==> |Compressed(ops[i].value, config.ratio)| <= config.maxSize
  {
    RunInvariant(config, states, ops, i);
    SetCapacity(config, states[i], ops[i], states[i + 1]);
  }

  // ----- the cache -----

  datatype Counters = Counters(hits: nat, misses: nat, sets: nat, deletes: nat, evictions: nat)

  class UaoQtcamCache {
    const config: Config
    var cache: Entries
    var currentSize: nat
    var stats: Counters

    ghost predicate Valid()
      reads this
    {
      config.ratio >= 1 && Accounted(Now())
    }

    ghost function Now(): Cache
      reads this
    {
      Cache(cache, currentSize)
    }

    constructor (maxSize: nat, ratio: int)
      requires ratio >= 1
      ensures Valid() && Now() == Cache(map[], 0) && config == Config(maxSize, ratio)
      ensures stats == Counters(0, 0, 0, 0, 0)
    {
      config := Config(maxSize, ratio);
      cache, currentSize := map[], 0;
      stats := Counters(0, 0, 0, 0, 0);
      EmptyTotal();
    }

    method Set(key: string, value: Bytes, ttl: Option<u64>, now: s64) returns (ghost evicted: seq<string>)
      requires Valid()
      modifies this
      ensures Valid()
      ensures var op := Op.Set(key, value, if ttl.Some? then ttl.value else 0, now);
              SetStep(config, old(Now()), op, evicted, Now())
      ensures stats == old(stats.(sets := stats.sets + 1, evictions := stats.evictions + |evicted|))
    {
      hide SumOf, Compressed, Elements, IsEviction;
      var compressed := Compress(value, config.ratio);
      evicted := EvictIfNeeded(|compressed|);
      var entry := Entry(compressed, |value|, now, now, 0, if ttl.Some? then ttl.value else 0);
      PutAccounts(Now(), key, entry);
      if key in cache {
        currentSize := currentSize - SizeOf(cache[key]);
      }
      currentSize := currentSize + |compressed|;
      cache := cache[key := entry];
      stats := stats.(sets := stats.sets + 1);
    }

    method Get(key: string, now: s64) returns (result: Option<Bytes>)
      requires Valid()
      modifies this
      ensures Valid() && Now() == old(Fetch(Now(), key, now)) && result == old(Answer(Now(), key, now))
      ensures stats == old(if result.Some? then stats.(hits := stats.hits + 1) else stats.(misses := stats.misses + 1))
    {
      hide SumOf;
      FetchAccounts(Now(), key, now);
      DropAccounts(Now(), key);
      result := None;
      if key in cache {
        var entry := cache[key];
        if entry.ttl > 0 && now > WrapSigned(entry.createdAt + AsSigned(entry.ttl)) {
          cache := cache - {key};
          currentSize := currentSize - |entry.compressed|;
        } else {
          cache := cache[key := entry.(lastAccessed := now, accessCount := entry.accessCount + 1)];
          var value := Decompress(entry.compressed, entry.originalSize);
          result := Some(value);
        }
      }
      if result.Some? {
        stats := stats.(hits := stats.hits + 1);
      } else {
        stats := stats.(misses := stats.misses + 1);
      }
    }

    method Delete(key: string) returns (removed: bool)
      requires Valid()
      modifies this
      ensures Valid() && Now() == old(Drop(Now(), key)) && removed == old(key in cache)
      ensures stats == old(if key in cache then stats.(deletes := stats.deletes + 1) else stats)
    {
      DropAccounts(Now(), key);
      removed := key in cache;
      if removed {
        var entry := cache[key];
        cache := cache - {key};
        currentSize := currentSize - |entry.compressed|;
        stats := stats.(deletes := stats.deletes + 1);
      }
    }

    method Clear()
      requires Valid()
      modifies `cache, `currentSize
      ensures Valid() && Now() == Cache(map[], 0)
    {
      cache, currentSize := map[], 0;
      EmptyTotal();
    }

    method EvictIfNeeded(newSize: nat) returns (ghost evicted: seq<string>)
      requires Valid()
      modifies this
      ensures Valid() && Elements(evicted) <= old(cache.Keys)
      ensures MakesRoom(config, old(Now()), newSize, evicted) && Now() == Evict(old(Now()), evicted)
      ensures stats == old(stats.(evictions := stats.evictions + |evicted|))
    {
      hide SumOf, Elements, Freed, Accounted, PartlyEvicted, IsEviction, Evict;
      ghost var before := Now();
      EvictNothing(before);
      evicted := [];
      if currentSize + newSize <= config.maxSize {
        return;
      }
      var scored := SortByScore();
      var needed := currentSize + newSize - config.maxSize;
      var freed := 0;
      var i := 0;
      StartEvicting(cache, scored);
      while i < |scored| && freed < needed
        invariant i <= |scored| && PartlyEvicted(before.entries, scored, i)
        invariant Elements(scored[..i]) <= before.entries.Keys
        invariant i > 0 ==> Elements(scored[..i - 1]) <= before.entries.Keys
        invariant Valid() && Now() == Evict(before, scored[..i])
        invariant freed == Freed(before.entries, scored[..i])
        invariant i > 0 ==> Freed(before.entries, scored[..i - 1]) < needed
        invariant stats == old(stats.(evictions := stats.evictions + i))
      {
        var key := scored[i];
        EvictOneMore(before, scored, i);
        DropAccounts(Now(), key);
        var size := SizeOf(cache[key]);
        cache := cache - {key};
        freed := freed + size;
        currentSize := currentSize - size;
        stats := stats.(evictions := stats.evictions + 1);
        i := i + 1;
      }
      evicted := scored[..i];
      PrefixIsEviction(before.entries, scored, i, needed);
    }

    /** Stands for the library sort over the map's entries, whose order among equal scores is arbitrary. */
    method SortByScore() returns (order: seq<string>)
      ensures Elements(order) == cache.Keys && Distinct(order) && Ordered(cache, order)
    {
      order := [];
      var rest := cache.Keys;
      while rest != {}
        invariant rest <= cache.Keys && Elements(order) == cache.Keys - rest
        invariant Distinct(order) && Ordered(cache, order)
        invariant forall k, k' | k in Elements(order) && k' in rest :: Score(cache[k]) <= Score(cache[k'])
        decreases rest
      {
        var key := Lowest(rest);
        assert key !in Elements(order);
        assert Elements(order + [key]) == Elements(order) + {key};
        assert forall i | 0 <= i < |order| :: order[i] in Elements(order);
        order := order + [key];
        rest := rest - {key};
      }
    }

    method Lowest(keys: set<string>) returns (lowest: string)
      requires keys <= cache.Keys && keys != {}
      ensures lowest in keys && forall k | k in keys :: Score(cache[lowest]) <= Score(cache[k])
    {
      lowest :| lowest in keys;
      var rest := keys - {lowest};
      while rest != {}
        invariant rest <= keys && lowest in keys
        invariant forall k | k in keys && k !in rest :: Score(cache[lowest]) <= Score(cache[k])
        decreases rest
      {
        var k :| k in rest;
        if Score(cache[k]) < Score(cache[lowest]) {
          lowest := k;
        }
        rest := rest - {k};
      }
    }
  }

  /** A sorted list of all entries, of which some are gone. */
  ghost predicate PartlyEvicted(entries: Entries, scored: seq<string>, i: nat) {
    && i <= |scored| && Elements(scored) == entries.Keys && Distinct(scored) && Ordered(entries, scored)
    && Elements(scored[..i]) <= entries.Keys
    && (i > 0 ==> Elements(scored[..i - 1]) <= entries.Keys)
  }

  lemma EvictNothing(c: Cache)
    ensures Elements([]) <= c.entries.Keys && Evict(c, []) == c
  {
    assert c.entries - Elements([]) == c.entries;
  }

  lemma StartEvicting(entries: Entries, scored: seq<string>)
    requires Elements(scored) == entries.Keys && Distinct(scored) && Ordered(entries, scored)
    ensures PartlyEvicted(entries, scored, 0) && Freed(entries, scored[..0]) == 0 && scored[..0] == []
  {
  }

  lemma EvictOneMore(c: Cache, scored: seq<string>, i: nat)
    requires PartlyEvicted(c.entries, scored, i) && i < |scored|
    ensures PartlyEvicted(c.entries, scored, i + 1) && Elements(scored[..i]) <= c.entries.Keys
    ensures Elements(scored[..i + 1]) <= c.entries.Keys
    ensures scored[i] in Evict(c, scored[..i]).entries
    ensures Evict(c, scored[..i + 1]) == Drop(Evict(c, scored[..i]), scored[i])
    ensures Freed(c.entries, scored[..i + 1]) ==
            Freed(c.entries, scored[..i]) + SizeOf(Evict(c, scored[..i]).entries[scored[i]])
    ensures scored[..i + 1][..i] == scored[..i]
  {
    assert scored[i] in Elements(scored);
    assert scored[..i + 1] == scored[..i] + [scored[i]];
    assert scored[..i + 1][..i] == scored[..i];
    assert Elements(scored[..i + 1]) == Elements(scored[..i]) + {scored[i]};
    assert c.entries - Elements(scored[..i + 1]) == c.entries - Elements(scored[..i]) - {scored[i]};
  }

  lemma PrefixOrdered(entries: Entries, scored: seq<string>, n: nat)
    requires PartlyEvicted(entries, scored, n)
    ensures Elements(scored[..n]) <= entries.Keys && Distinct(scored[..n]) && Ordered(entries, scored[..n])
  {
    hide Score;
  }

  lemma PrefixIsEviction(entries: Entries, scored: seq<string>, n: nat, needed: nat)
    requires PartlyEvicted(entries, scored, n)
    requires Freed(entries, scored[..n]) >= needed || n == |scored|
    requires n > 0 ==> Freed(entries, scored[..n - 1]) < needed
    ensures IsEviction(entries, scored[..n], needed)
  {
    hide Freed, Score, Distinct, Ordered;
    var evicted := scored[..n];
    PrefixOrdered(entries, scored, n);
    KeptScoresHigher(entries, scored, n);
    forall m | 0 <= m < n ensures Elements(evicted[..m]) <= entries.Keys && Freed(entries, evicted[..m]) < needed {
      var shorter := scored[..n - 1];
      assert shorter[..m] == evicted[..m];
      FreedGrows(entries, shorter, m);
    }
    if n == |scored| {
      assert evicted == scored;
    }
  }

  lemma KeptScoresHigher(entries: Entries, scored: seq<string>, n: nat)
    requires PartlyEvicted(entries, scored, n)
    ensures forall k, k' | k in Elements(scored[..n]) && k' in entries.Keys - Elements(scored[..n]) ::
              Score(entries[k]) <= Score(entries[k'])
  {
    hide Score;
    var evicted := scored[..n];
    assert forall j | 0 <= j < n :: evicted[j] == scored[j];
    forall k, k' | k in Elements(evicted) && k' in entries.Keys - Elements(evicted)
      ensures Score(entries[k]) <= Score(entries[k'])
    {
      assert k' in Elements(scored);
      var i :| 0 <= i < n && evicted[i] == k;
      var j :| 0 <= j < |scored| && scored[j] == k';
    }
  }
}
