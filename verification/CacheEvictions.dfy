/**
 What a set of the cache (src/uao_qtcam_cache.rs) evicts and keeps, in bytes, accesses and times, and
 what an entry's counters mean over whole runs.
 */
module CacheEvictions {
  import opened CacheCodec
  import opened CacheStore
  import opened MachineIntegers

  // ----- one set -----

  lemma PrefixFrees(entries: Entries, keys: seq<string>, n: nat)
    requires Elements(keys) <= entries.Keys && Distinct(keys) && n <= |keys|
    ensures Elements(keys[..n]) <= entries.Keys
    ensures TotalSize(entries - Elements(keys[..n])) + Freed(entries, keys[..n]) == TotalSize(entries)
  {
    FreedGrows(entries, keys, n);
    hide TotalSize, Freed;
    assert Distinct(keys[..n]);
    EvictionFrees(entries, keys[..n]);
  }

  /** Nothing is evicted that need not be: without the last evicted entries the new one would not fit. */
  lemma EvictsNoMore(config: Config, c: Cache, op: Op, evicted: seq<string>, c': Cache, n: nat)
    requires config.ratio >= 1 && op.Set? && Accounted(c) && SetStep(config, c, op, evicted, c') && n < |evicted|
    ensures TotalSize(c.entries - Elements(evicted[..n])) + |Compressed(op.value, config.ratio)| > config.maxSize
  {
    hide TotalSize, Freed, Compressed, Ordered;
    PrefixFrees(c.entries, evicted, n);
  }

  /** Enough is evicted: an entry that fits at all fits beside what is kept. */
  lemma EvictsEnough(config: Config, c: Cache, op: Op, evicted: seq<string>, c': Cache)
    requires config.ratio >= 1 && op.Set? && Accounted(c) && SetStep(config, c, op, evicted, c')
    requires |Compressed(op.value, config.ratio)| <= config.maxSize
    ensures TotalSize(c.entries - Elements(evicted)) + |Compressed(op.value, config.ratio)| <= config.maxSize
  {
    hide TotalSize, Freed, Compressed, Ordered;
    if evicted == [] && c.size + |Compressed(op.value, config.ratio)| <= config.maxSize {
      assert c.entries - Elements(evicted) == c.entries;
    } else {
      EvictionFrees(c.entries, evicted);
      if Elements(evicted) == c.entries.Keys {
        assert c.entries - Elements(evicted) == map[];
        EmptyTotal();
      }
    }
  }

  /** What is evicted has been used no more than what is kept, by twice the last access and three times the count. */
  lemma LeastUsedLeave(config: Config, c: Cache, op: Op, evicted: seq<string>, c': Cache, gone: string, kept: string)
    requires config.ratio >= 1 && op.Set? && SetStep(config, c, op, evicted, c')
    requires gone in evicted && kept in c.entries && kept !in evicted
    ensures gone in c.entries
    ensures var e, e' := c.entries[gone], c.entries[kept];
            2 * e.lastAccessed + 3 * e.accessCount <= 2 * e'.lastAccessed + 3 * e'.accessCount
  {
    hide Freed, Compressed, Ordered, Score;
    assert gone in Elements(evicted) && kept in c.entries.Keys - Elements(evicted);
    ScoreOrder(c.entries[gone], c.entries[kept]);
  }

  lemma ScoreOrder(e: Entry, e': Entry)
    ensures Score(e) <= Score(e') <==>
            2 * e.lastAccessed + 3 * e.accessCount <= 2 * e'.lastAccessed + 3 * e'.accessCount
  {
    var x, y := 2 * e.lastAccessed + 3 * e.accessCount, 2 * e'.lastAccessed + 3 * e'.accessCount;
    assert Score(e) * 5.0 == x as real && Score(e') * 5.0 == y as real;
  }

  /** After a set there is what was kept, and a fresh entry under the key. */
  lemma SetEntries(config: Config, c: Cache, op: Op, evicted: seq<string>, c': Cache)
    requires config.ratio >= 1 && op.Set? && SetStep(config, c, op, evicted, c')
    ensures c'.entries == (c.entries - Elements(evicted))[
                            op.key := Entry(Compressed(op.value, config.ratio), |op.value|, op.now, op.now, 0, op.ttl)]
  {
  }

  // ----- whole runs -----

  /** How often operations from i on, before the n-th, get the key. */
  ghost function Gets(ops: seq<Op>, key: string, i: nat, n: nat): nat
    requires i <= n <= |ops|
  {
    if n == i then 0
    else Gets(ops, key, i, n - 1) + if ops[n - 1].Get? && ops[n - 1].key == key then 1 else 0
  }

  /** When the key was last used, by the set at i or by a get after it. */
  ghost function LastUse(ops: seq<Op>, key: string, i: nat, n: nat): s64
    requires i < n <= |ops| && ops[i].Set?
    decreases n
  {
    if n == i + 1 then ops[i].now
    else if ops[n - 1].Get? && ops[n - 1].key == key then ops[n - 1].now
    else LastUse(ops, key, i, n - 1)
  }

  lemma UseCounted(config: Config, c: Cache, op: Op, c': Cache, key: string)
    requires config.ratio >= 1 && Step(config, c, op, c') && Leaves(config, c, op, c', key)
    requires key in c.entries && key in c'.entries
    ensures if op.Get? && op.key == key then
              c'.entries[key].accessCount == c.entries[key].accessCount + 1 && c'.entries[key].lastAccessed == op.now
            else c'.entries[key] == c.entries[key]
  {
    hide Compressed, MakesRoom, Freed;
    if op.Set? {
      var evicted :| SetStep(config, c, op, evicted, c');
      assert key !in evicted;
    }
  }

  /** In every run an entry counts the gets since its set, and remembers when the key was last used. */
  lemma {:induction false} UsesCounted(config: Config, states: seq<Cache>, ops: seq<Op>, i: nat, n: nat, key: string)
    requires config.ratio >= 1 && IsRun(config, states, ops) && n <= |ops|
    requires StandsSince(config, states, ops, i, n, key)
    ensures key in states[n].entries
    ensures states[n].entries[key].accessCount == Gets(ops, key, i + 1, n)
    ensures states[n].entries[key].lastAccessed == LastUse(ops, key, i, n)
  {
    hide Compressed, MakesRoom, Freed, Leaves;
    StandingEntry(config, states, ops, i, n, key);
    if i == n - 1 {
      assert Step(config, states[i], ops[i], states[n]);
    } else {
      UsesCounted(config, states, ops, i, n - 1, key);
      UseCounted(config, states[n - 1], ops[n - 1], states[n], key);
    }
  }
}
