/**
 The certificate store (src/grpc/certificate.rs): certificates by serial number, an index by
 fingerprint and a revocation list, each behind its own lock. Issuing and revoking take the locks one
 after another, so other calls see the moments in between; a step is what happens under one lock.
 Times are in nanoseconds.
 */
module CertificateStore {
  import opened Wrappers

  const DAY := 24 * 60 * 60 * 1_000_000_000

  datatype Reason =
    | Unspecified | KeyCompromise | CaCompromise | AffiliationChanged
    | Superseded | CessationOfOperation | CertificateHold | PrivilegeWithdrawn

  datatype Status = Valid | Expired | Revoked | Unknown

  datatype Certificate = Certificate(serial: string, fingerprint: string, commonName: string, orgId: string,
                                     apiKeyHash: string, issuedAt: int, expiresAt: int, status: Status,
                                     revokedAt: Option<int>, reason: Option<Reason>)

  datatype CrlEntry = CrlEntry(serial: string, revokedAt: int, reason: Reason)

  /** The revocation that holds the certificates lock, and how far it is. */
  datatype Revoker = Free | Marked(entry: CrlEntry) | Pushed(time: int)

  /** The serial numbers in unindexed belong to issue calls between their two steps. */
  datatype Store = Store(certificates: map<string, Certificate>, index: map<string, string>, crl: seq<CrlEntry>,
                         crlLastUpdate: int, unindexed: set<string>, revoker: Revoker)

  datatype Step =
    | Insert(certificate: Certificate) // issue: briefly take the certificates lock
    | Index(serial: string) // issue: briefly take the index lock
    | Mark(serial: string, reason: Reason, now: int) // revoke: take the certificates lock; on refusal release it
    | Push // revoke: briefly take the list lock
    | Stamp // revoke: briefly take the timestamp lock, release the certificates lock

  predicate Issued(c: Certificate) {
    c.status == Valid && c.revokedAt == None && c.reason == None
  }

  /** Which steps the locks allow; a new serial number is fresh. */
  predicate Enabled(s: Store, step: Step) {
    match step
    case Insert(c) => s.revoker.Free? && Issued(c) && c.serial !in s.certificates
    case Index(serial) => serial in s.unindexed && serial in s.certificates
    case Mark(_, _, _) => s.revoker.Free?
    case Push => s.revoker.Marked?
    case Stamp => s.revoker.Pushed?
  }

  /** Whether a revocation goes ahead. */
  predicate Revocable(s: Store, serial: string) {
    serial in s.certificates && s.certificates[serial].status != Revoked
  }

  function RevokedForm(c: Certificate, reason: Reason, now: int): Certificate {
    c.(status := Revoked, revokedAt := Some(now), reason := Some(reason))
  }

  function Next(s: Store, step: Step): Store
    requires Enabled(s, step)
  {
    match step
    case Insert(c) =>
      s.(certificates := s.certificates[c.serial := c], unindexed := s.unindexed + {c.serial})
    case Index(serial) =>
      s.(index := s.index[s.certificates[serial].fingerprint := serial], unindexed := s.unindexed - {serial})
    case Mark(serial, reason, now) =>
      if Revocable(s, serial) then
        s.(certificates := s.certificates[serial := RevokedForm(s.certificates[serial], reason, now)],
           revoker := Marked(CrlEntry(serial, now, reason)))
      else s
    case Push => s.(crl := s.crl + [s.revoker.entry], revoker := Pushed(s.revoker.entry.revokedAt))
    case Stamp => s.(crlLastUpdate := s.revoker.time, revoker := Free)
  }

  function Empty(now: int): Store {
    Store(map[], map[], [], now, {}, Free)
  }

  ghost predicate IsRun(states: seq<Store>, steps: seq<Step>) {
    && |states| == |steps| + 1 && (exists now :: states[0] == Empty(now))
    && forall i | 0 <= i < |steps| :: Enabled(states[i], steps[i]) && states[i + 1] == Next(states[i], steps[i])
  }

  // ----- what holds at every moment -----

  /** The list entry that a revoked certificate calls for. */
  function EntryFor(c: Certificate): CrlEntry
    requires c.revokedAt.Some? && c.reason.Some?
  {
    CrlEntry(c.serial, c.revokedAt.value, c.reason.value)
  }

  ghost predicate WellFormed(serial: string, c: Certificate) {
    c.serial == serial && (Issued(c) || (c.status == Revoked && c.revokedAt.Some? && c.reason.Some?))
  }

  /** Every index entry leads to a stored certificate with that fingerprint. */
  ghost predicate IndexResolves(s: Store) {
    && (forall f | f in s.index :: s.index[f] in s.certificates && s.certificates[s.index[f]].fingerprint == f)
    && s.unindexed <= s.certificates.Keys
  }

  /** A revoked certificate whose list entry is due: all of them, except the one being revoked. */
  ghost predicate OnList(s: Store, serial: string) {
    && serial in s.certificates && s.certificates[serial].status == Revoked
    && !(s.revoker.Marked? && s.revoker.entry.serial == serial)
  }

  ghost predicate AllWellFormed(s: Store) {
    forall serial | serial in s.certificates :: WellFormed(serial, s.certificates[serial])
  }

  /** An entry of the list has its certificate's time and reason. */
  ghost predicate EntryMatches(s: Store, entry: CrlEntry) {
    && OnList(s, entry.serial) && WellFormed(entry.serial, s.certificates[entry.serial])
    && entry == EntryFor(s.certificates[entry.serial])
  }

  ghost predicate EntriesMatch(s: Store) {
    forall i | 0 <= i < |s.crl| :: EntryMatches(s, s.crl[i])
  }

  ghost predicate EntriesDistinct(crl: seq<CrlEntry>) {
    forall i, j | 0 <= i < j < |crl| :: crl[i].serial != crl[j].serial
  }

  ghost predicate Listed(s: Store, serial: string)
    requires AllWellFormed(s) && OnList(s, serial)
  {
    EntryFor(s.certificates[serial]) in s.crl
  }

  ghost predicate ListMatches(s: Store) {
    && AllWellFormed(s) && EntriesMatch(s) && EntriesDistinct(s.crl)
    && forall serial | OnList(s, serial) :: Listed(s, serial)
  }

  ghost predicate LockConsistent(s: Store) {
    match s.revoker
    case Free => s.crl != [] ==> s.crlLastUpdate == s.crl[|s.crl| - 1].revokedAt
    case Marked(entry) =>
      && entry.serial in s.certificates && s.certificates[entry.serial].status == Revoked
      && WellFormed(entry.serial, s.certificates[entry.serial])
      && entry == EntryFor(s.certificates[entry.serial])
    case Pushed(time) => s.crl != [] && time == s.crl[|s.crl| - 1].revokedAt
  }

  ghost predicate Invariant(s: Store) {
    IndexResolves(s) && ListMatches(s) && LockConsistent(s)
  }

  lemma StepKeepsIndex(s: Store, step: Step)
    requires IndexResolves(s) && Enabled(s, step)
    ensures IndexResolves(Next(s, step))
  {
  }

  lemma StepKeepsWellFormed(s: Store, step: Step)
    requires AllWellFormed(s) && LockConsistent(s) && Enabled(s, step)
    ensures AllWellFormed(Next(s, step)) && LockConsistent(Next(s, step))
  {
  }

  lemma StepKeepsEntries(s: Store, step: Step)
    requires AllWellFormed(s) && EntriesMatch(s) && EntriesDistinct(s.crl) && LockConsistent(s) && Enabled(s, step)
    ensures EntriesMatch(Next(s, step)) && EntriesDistinct(Next(s, step).crl)
  {
    var s' := Next(s, step);
    forall i | 0 <= i < |s'.crl| ensures EntryMatches(s', s'.crl[i]) {
      assert i < |s.crl| ==> s'.crl[i] == s.crl[i] && EntryMatches(s, s.crl[i]);
    }
    if step.Push? {
      assert forall i | 0 <= i < |s.crl| :: EntryMatches(s, s.crl[i]);
    }
  }

  lemma StepKeepsListed(s: Store, step: Step, serial: string)
    requires ListMatches(s) && LockConsistent(s) && Enabled(s, step)
    requires AllWellFormed(Next(s, step)) && OnList(Next(s, step), serial)
    ensures Listed(Next(s, step), serial)
  {
    hide EntriesMatch, EntriesDistinct;
    if OnList(s, serial) {
      assert Listed(s, serial);
    }
  }

  lemma StepKeepsList(s: Store, step: Step)
    requires ListMatches(s) && LockConsistent(s) && Enabled(s, step)
    ensures ListMatches(Next(s, step)) && LockConsistent(Next(s, step))
  {
    StepKeepsWellFormed(s, step);
    StepKeepsEntries(s, step);
    forall serial | OnList(Next(s, step), serial) ensures Listed(Next(s, step), serial) {
      StepKeepsListed(s, step, serial);
    }
  }

  /** In every run, from the empty store, the invariant holds at every moment. */
  lemma {:induction false} InvariantAlways(states: seq<Store>, steps: seq<Step>, i: nat)
    requires IsRun(states, steps) && i <= |steps|
    ensures Invariant(states[i])
  {
    if i > 0 {
      hide ListMatches, LockConsistent, IndexResolves;
      InvariantAlways(states, steps, i - 1);
      StepKeepsIndex(states[i - 1], steps[i - 1]);
      StepKeepsList(states[i - 1], steps[i - 1]);
    }
  }

  // ----- the list against the certificates -----

  /** The serial numbers of revoked certificates. */
  ghost function RevokedSerials(s: Store): set<string> {
    set serial | serial in s.certificates && s.certificates[serial].status == Revoked
  }

  ghost function Serials(crl: seq<CrlEntry>): set<string> {
    set i | 0 <= i < |crl| :: crl[i].serial
  }

  lemma {:induction false} DistinctCount(crl: seq<CrlEntry>)
    requires EntriesDistinct(crl)
    ensures |Serials(crl)| == |crl|
  {
    if crl != [] {
      var rest := crl[..|crl| - 1];
      DistinctCount(rest);
      assert Serials(crl) == Serials(rest) + {crl[|crl| - 1].serial};
    }
  }

  /** While no revocation is under way the list holds exactly one entry for each revoked certificate. */
  lemma ListIsExact(s: Store)
    requires Invariant(s) && s.revoker.Free?
    ensures Serials(s.crl) == RevokedSerials(s) && |s.crl| == |RevokedSerials(s)|
    ensures forall i | 0 <= i < |s.crl| ::
              s.crl[i].serial in s.certificates && s.certificates[s.crl[i].serial].revokedAt == Some(s.crl[i].revokedAt)
              && s.certificates[s.crl[i].serial].reason == Some(s.crl[i].reason)
  {
    DistinctCount(s.crl);
    forall i | 0 <= i < |s.crl| ensures EntryMatches(s, s.crl[i]) {
    }
    forall serial | serial in RevokedSerials(s) ensures serial in Serials(s.crl) {
      assert OnList(s, serial) && Listed(s, serial);
    }
  }

  // ----- nothing is undone -----

  /** Later states keep each certificate's data; a revoked certificate does not change at all. */
  ghost predicate Keeps(s: Store, t: Store, serial: string)
    requires serial in s.certificates
  {
    && serial in t.certificates
    && var c, d := s.certificates[serial], t.certificates[serial];
       && d.(status := c.status, revokedAt := c.revokedAt, reason := c.reason) == c
       && (c.status == Revoked ==> d == c)
  }

  lemma {:induction false} CertificatesKept(states: seq<Store>, steps: seq<Step>, i: nat, j: nat, serial: string)
    requires IsRun(states, steps) && i <= j <= |steps| && serial in states[i].certificates
    ensures Keeps(states[i], states[j], serial)
    decreases j
  {
    if i < j {
      CertificatesKept(states, steps, i, j - 1, serial);
      assert states[j] == Next(states[j - 1], steps[j - 1]);
    }
  }

  /** The list only grows. */
  lemma {:induction false} ListAppendOnly(states: seq<Store>, steps: seq<Step>, i: nat, j: nat)
    requires IsRun(states, steps) && i <= j <= |steps|
    ensures states[i].crl <= states[j].crl
    decreases j
  {
    if i < j {
      ListAppendOnly(states, steps, i, j - 1);
      assert states[j] == Next(states[j - 1], steps[j - 1]);
    }
  }

  lemma {:induction false} IndexKeys(states: seq<Store>, steps: seq<Step>, i: nat, j: nat, f: string)
    requires IsRun(states, steps) && i <= j <= |steps| && f in states[i].index
    ensures f in states[j].index
    decreases j
  {
    if i < j {
      IndexKeys(states, steps, i, j - 1, f);
      assert states[j] == Next(states[j - 1], steps[j - 1]);
    }
  }

  // ----- observations -----

  function CurrentStatus(c: Certificate, now: int): Status {
    if c.status == Revoked then Revoked else if now >= c.expiresAt then Expired else Valid
  }

  function StatusIn(certificates: map<string, Certificate>, serial: string, now: int): Status {
    if serial in certificates then CurrentStatus(certificates[serial], now) else Unknown
  }

  /** How far a certificate is through its life. */
  function Rank(status: Status): nat {
    match status
    case Unknown => 0
    case Valid => 1
    case Expired => 2
    case Revoked => 3
  }

  /**
   Two status checks, the second begun after the first: each reads the certificate at some moment of
   the run and the clock after that. With a clock that does not go back, the answer never moves back.
   */
  lemma StatusNeverGoesBack(states: seq<Store>, steps: seq<Step>, i: nat, j: nat, serial: string, t: int, t': int)
    requires IsRun(states, steps) && i <= j <= |steps| && t <= t'
    ensures Rank(StatusIn(states[i].certificates, serial, t)) <= Rank(StatusIn(states[j].certificates, serial, t'))
  {
    if serial in states[i].certificates {
      CertificatesKept(states, steps, i, j, serial);
    }
  }

  /** The serial was named by a revocation between two moments. */
  ghost predicate MarkedBetween(steps: seq<Step>, serial: string, i: nat, j: nat)
    requires j <= |steps|
  {
    exists k :: i <= k < j && steps[k].Mark? && steps[k].serial == serial
  }

  /** After its issue a certificate stays as it is until it is revoked. */
  lemma {:induction false} IssuedStays(states: seq<Store>, steps: seq<Step>, i: nat, j: nat, c: Certificate)
    requires IsRun(states, steps) && i < j <= |steps| && steps[i] == Insert(c)
    ensures c.serial in states[j].certificates
    ensures if MarkedBetween(steps, c.serial, i + 1, j) then states[j].certificates[c.serial].status == Revoked
            else states[j].certificates[c.serial] == c
    decreases j
  {
    assert Enabled(states[j - 1], steps[j - 1]) && states[j] == Next(states[j - 1], steps[j - 1]);
    if i < j - 1 {
      IssuedStays(states, steps, i, j - 1, c);
      var step := steps[j - 1];
      if MarkedBetween(steps, c.serial, i + 1, j) && !(step.Mark? && step.serial == c.serial) {
        assert MarkedBetween(steps, c.serial, i + 1, j - 1);
      }
    }
  }

  /** From its issue on: revoked once a revocation names it, else valid until its expiry, then expired. */
  lemma AnswersExactly(states: seq<Store>, steps: seq<Step>, i: nat, j: nat, c: Certificate, now: int)
    requires IsRun(states, steps) && i < j <= |steps| && steps[i] == Insert(c)
    ensures StatusIn(states[j].certificates, c.serial, now) ==
            if MarkedBetween(steps, c.serial, i + 1, j) then Revoked
            else if now < c.expiresAt then Valid else Expired
  {
    assert Enabled(states[i], steps[i]);
    IssuedStays(states, steps, i, j, c);
  }

  /** A lookup by fingerprint reads the index and later the certificates; it finds what it should. */
  lemma LookupResolves(states: seq<Store>, steps: seq<Step>, i: nat, j: nat, f: string)
    requires IsRun(states, steps) && i <= j <= |steps| && f in states[i].index
    ensures states[i].index[f] in states[j].certificates
    ensures states[j].certificates[states[i].index[f]].fingerprint == f
  {
    InvariantAlways(states, steps, i);
    CertificatesKept(states, steps, i, j, states[i].index[f]);
  }

  /** Once issued and indexed, a certificate is found by its fingerprint, unless another one has the same. */
  lemma {:induction false} IssuedIsFound(states: seq<Store>, steps: seq<Step>, i: nat, j: nat, serial: string)
    requires IsRun(states, steps) && i < j <= |steps| && steps[i] == Index(serial)
    requires forall other | other in states[j].certificates && other != serial ::
               states[j].certificates[other].fingerprint != states[i].certificates[serial].fingerprint
    ensures var f := states[i].certificates[serial].fingerprint;
            f in states[j].index && states[j].index[f] == serial
  {
    assert states[i + 1] == Next(states[i], steps[i]);
    IndexKeys(states, steps, i + 1, j, states[i].certificates[serial].fingerprint);
    InvariantAlways(states, steps, j);
  }

  // ----- the list and its timestamp, read one after the other -----

  /** The entries whose time has been stamped: all but the one between its two last steps. */
  function StampedCount(s: Store): int {
    |s.crl| - if s.revoker.Pushed? then 1 else 0
  }

  /** The timestamp is the time of the last stamped entry, or of the store's creation. */
  ghost predicate Stamped(s: Store, created: int) {
    && StampedCount(s) >= 0
    && (s.revoker.Pushed? ==> s.revoker.time == s.crl[|s.crl| - 1].revokedAt)
    && s.crlLastUpdate == if StampedCount(s) == 0 then created else s.crl[StampedCount(s) - 1].revokedAt
  }

  lemma {:induction false} StampedAlways(states: seq<Store>, steps: seq<Step>, i: nat)
    requires IsRun(states, steps) && i <= |steps|
    ensures Stamped(states[i], states[0].crlLastUpdate)
  {
    if i > 0 {
      StampedAlways(states, steps, i - 1);
      assert states[i] == Next(states[i - 1], steps[i - 1]);
    }
  }

  /** The clock of the revocations does not go back, from the store's creation on. */
  ghost predicate ClockForward(states: seq<Store>, steps: seq<Step>)
    requires |states| > 0
  {
    && (forall i | 0 <= i < |steps| && steps[i].Mark? :: states[0].crlLastUpdate <= steps[i].now)
    && (forall i, j | 0 <= i < j < |steps| && steps[i].Mark? && steps[j].Mark? :: steps[i].now <= steps[j].now)
  }

  ghost predicate InOrder(crl: seq<CrlEntry>) {
    forall i, j | 0 <= i < j < |crl| :: crl[i].revokedAt <= crl[j].revokedAt
  }

  /** Everything on the list, and the entry about to be pushed, is no later than any revocation to come. */
  ghost predicate NoLaterThan(s: Store, created: int, now: int) {
    && created <= now
    && (s.revoker.Marked? ==> s.revoker.entry.revokedAt <= now)
    && forall i | 0 <= i < |s.crl| :: s.crl[i].revokedAt <= now
  }

  /** The list is in the order of time, the store's creation before it and a marked entry after it. */
  ghost predicate Chronological(s: Store, created: int) {
    && InOrder(s.crl)
    && (forall i | 0 <= i < |s.crl| :: created <= s.crl[i].revokedAt)
    && (s.revoker.Marked? ==> NoLaterThan(s, created, s.revoker.entry.revokedAt))
  }

  lemma ChronologicalStep(s: Store, step: Step, created: int)
    requires Chronological(s, created) && Enabled(s, step) && (step.Mark? ==> NoLaterThan(s, created, step.now))
    ensures Chronological(Next(s, step), created)
  {
  }

  lemma NoLaterStep(s: Store, step: Step, created: int, now: int)
    requires NoLaterThan(s, created, now) && Enabled(s, step) && (step.Mark? ==> step.now <= now)
    ensures NoLaterThan(Next(s, step), created, now)
  {
  }

  lemma {:induction false} ChronologicalAlways(states: seq<Store>, steps: seq<Step>, i: nat)
    requires IsRun(states, steps) && ClockForward(states, steps) && i <= |steps|
    ensures Chronological(states[i], states[0].crlLastUpdate)
    ensures forall j | i <= j < |steps| && steps[j].Mark? ::
              NoLaterThan(states[i], states[0].crlLastUpdate, steps[j].now)
  {
    if i > 0 {
      ChronologicalAlways(states, steps, i - 1);
      assert Enabled(states[i - 1], steps[i - 1]) && states[i] == Next(states[i - 1], steps[i - 1]);
      hide Chronological, NoLaterThan, IsRun, Next;
      var created := states[0].crlLastUpdate;
      ChronologicalStep(states[i - 1], steps[i - 1], created);
      forall j | i <= j < |steps| && steps[j].Mark? ensures NoLaterThan(states[i], created, steps[j].now) {
        NoLaterStep(states[i - 1], steps[i - 1], created, steps[j].now);
      }
    }
  }

  /**
   get_crl reads the list at one moment and the timestamp at a later one. All entries of the list but
   possibly the last are stamped and no later than the timestamp; the last is not exactly when the
   timestamp is read while that entry's own revocation has pushed it and not yet stamped.
   */
  lemma ListAndStamp(states: seq<Store>, steps: seq<Step>, i: nat, j: nat)
    requires IsRun(states, steps) && ClockForward(states, steps) && i <= j <= |steps|
    ensures var list, thisUpdate, stamped := states[i].crl, states[j].crlLastUpdate, StampedCount(states[j]);
            && list <= states[j].crl && |list| <= stamped + 1
            && (forall k | 0 <= k < |list| && k < stamped :: list[k].revokedAt <= thisUpdate)
            && (|list| == stamped + 1 <==> states[j].revoker.Pushed? && |list| == |states[j].crl|)
            && (stamped > 0 ==> thisUpdate == states[j].crl[stamped - 1].revokedAt)
  {
    ListAppendOnly(states, steps, i, j);
    StampedAlways(states, steps, j);
    ChronologicalAlways(states, steps, j);
  }

  /** That does happen: an entry newer than its list's timestamp. */
  lemma ListAheadOfStamp(c: Certificate, reason: Reason, created: int, now: int)
    requires Issued(c) && created < now
    ensures exists states: seq<Store> ::
              && IsRun(states, [Insert(c), Mark(c.serial, reason, now), Push])
              && states[3].crl == [CrlEntry(c.serial, now, reason)] && states[3].crlLastUpdate == created
  {
    var s0 := Empty(created);
    var s1 := Next(s0, Insert(c));
    var s2 := Next(s1, Mark(c.serial, reason, now));
    var states := [s0, s1, s2, Next(s2, Push)];
    assert states[0] == Empty(created);
    assert IsRun(states, [Insert(c), Mark(c.serial, reason, now), Push]);
  }

  // ----- the manager: one call after another -----

  function IssuedStore(s: Store, c: Certificate): Store
    requires s.revoker.Free? && Issued(c) && c.serial !in s.certificates
  {
    Next(Next(s, Insert(c)), Index(c.serial))
  }

  function RevokedStore(s: Store, serial: string, reason: Reason, now: int): Store
    requires s.revoker.Free?
  {
    if Revocable(s, serial) then Next(Next(Next(s, Mark(serial, reason, now)), Push), Stamp)
    else Next(s, Mark(serial, reason, now))
  }

  datatype RevokeError = AlreadyRevoked | NotFound

  class CertificateManager {
    var certificates: map<string, Certificate>
    var fingerprintIndex: map<string, string>
    var crl: seq<CrlEntry>
    var crlLastUpdate: int

    ghost function Now(): Store
      reads this
    {
      Store(certificates, fingerprintIndex, crl, crlLastUpdate, {}, Free)
    }

    ghost predicate Valid()
      reads this
    {
      Invariant(Now())
    }

    constructor (now: int)
      ensures Valid() && Now() == Empty(now)
    {
      certificates, fingerprintIndex, crl, crlLastUpdate := map[], map[], [], now;
    }

    /** The fresh serial number, the clock and the fingerprint of what the X.509 library built, if it did. */
    method IssueCertificate(orgId: string, commonName: string, apiKeyHash: string, validityDays: nat,
                            serial: string, now: int, built: Option<string>)
      returns (result: Option<Certificate>)
      requires Valid() && serial !in certificates
      modifies this
      ensures Valid() && (result.None? <==> built.None?)
      ensures result.None? ==> Now() == old(Now())
      ensures result.Some? ==>
                && result.value == Certificate(serial, built.value, commonName, orgId, apiKeyHash, now,
                                               now + validityDays * 86_400_000_000_000, Status.Valid, None, None)
                && Now() == IssuedStore(old(Now()), result.value)
                && certificates == old(certificates)[serial := result.value]
                && fingerprintIndex == old(fingerprintIndex)[built.value := serial]
    {
      if built.None? {
        return None;
      }
      ghost var before := Now();
      var entry := Certificate(serial, built.value, commonName, orgId, apiKeyHash, now, now + validityDays * DAY,
                               Status.Valid, None, None);
      certificates := certificates[serial := entry];
      fingerprintIndex := fingerprintIndex[built.value := serial];
      StepSequence(before, Insert(entry), Index(serial));
      assert Now() == IssuedStore(before, entry);
      result := Some(entry);
    }

    method RevokeCertificate(serial: string, reason: Reason, now: int) returns (error: Option<RevokeError>)
      requires Valid()
      modifies this
      ensures Valid() && Now() == RevokedStore(old(Now()), serial, reason, now)
      ensures error.None? ==>
                && crl == old(crl) + [CrlEntry(serial, now, reason)] && crlLastUpdate == now
                && certificates == old(certificates[serial := certificates[serial].(
                                         status := Revoked, revokedAt := Some(now), reason := Some(reason))])
      ensures error.Some? ==> Now() == old(Now())
      ensures error == old(if serial !in certificates then Some(NotFound)
                           else if certificates[serial].status == Revoked then Some(AlreadyRevoked) else None)
    {
      if serial !in certificates {
        return Some(NotFound);
      }
      var cert := certificates[serial];
      if cert.status == Revoked {
        return Some(AlreadyRevoked);
      }
      hide Invariant, RevokedStore;
      ghost var before := Now();
      certificates := certificates[serial := cert.(status := Revoked, revokedAt := Some(now), reason := Some(reason))];
      crl := crl + [CrlEntry(serial, now, reason)];
      crlLastUpdate := now;
      RevokedAtOnce(before, serial, reason, now);
      error := None;
    }

    method GetCertificateByFingerprint(fingerprint: string) returns (found: Option<Certificate>)
      requires Valid()
      ensures found.Some? <==> fingerprint in fingerprintIndex
      ensures found.Some? ==> found.value.fingerprint == fingerprint && found.value.serial in certificates
                              && certificates[found.value.serial] == found.value
    {
      if fingerprint !in fingerprintIndex {
        return None;
      }
      var serial := fingerprintIndex[fingerprint];
      found := if serial in certificates then Some(certificates[serial]) else None;
    }

    method CheckStatus(serial: string, now: int) returns (status: Status)
      requires Valid()
      ensures status == StatusIn(certificates, serial, now)
      ensures status == Unknown <==> serial !in certificates
      ensures status == Status.Valid <==>
              serial in certificates && certificates[serial].status != Revoked && now < certificates[serial].expiresAt
      ensures status == Revoked <==> exists i :: 0 <= i < |crl| && crl[i].serial == serial
    {
      ListIsExact(Now());
      assert serial in Serials(crl) <==> serial in RevokedSerials(Now());
      if serial in certificates {
        var cert := certificates[serial];
        if cert.status == Revoked {
          status := Revoked;
        } else if now >= cert.expiresAt {
          status := Expired;
        } else {
          status := Status.Valid;
        }
      } else {
        status := Unknown;
      }
    }

    method GetCrl() returns (entries: seq<CrlEntry>, thisUpdate: int, nextUpdate: int)
      requires Valid()
      ensures entries == crl && |entries| == |RevokedSerials(Now())| && nextUpdate == thisUpdate + 86_400_000_000_000
      ensures entries != [] ==> thisUpdate == entries[|entries| - 1].revokedAt
    {
      ListIsExact(Now());
      entries, thisUpdate, nextUpdate := crl, crlLastUpdate, crlLastUpdate + DAY;
    }
  }

  /** The outcome of an undisturbed revocation. */
  lemma RevokedAtOnce(s: Store, serial: string, reason: Reason, now: int)
    requires Invariant(s) && s.revoker.Free? && Revocable(s, serial)
    ensures Invariant(RevokedStore(s, serial, reason, now))
    ensures RevokedStore(s, serial, reason, now) ==
            s.(certificates := s.certificates[serial := RevokedForm(s.certificates[serial], reason, now)],
               crl := s.crl + [CrlEntry(serial, now, reason)], crlLastUpdate := now)
  {
    hide Invariant;
    var marked := Next(s, Mark(serial, reason, now));
    StepSequence(s, Mark(serial, reason, now), Push);
    StepSequence(marked, Push, Stamp);
  }

  lemma StepSequence(s: Store, first: Step, second: Step)
    requires Invariant(s) && Enabled(s, first) && Enabled(Next(s, first), second)
    ensures Invariant(Next(s, first)) && Invariant(Next(Next(s, first), second))
  {
    hide IndexResolves, ListMatches, LockConsistent;
    StepKeepsIndex(s, first);
    StepKeepsList(s, first);
    StepKeepsIndex(Next(s, first), second);
    StepKeepsList(Next(s, first), second);
  }
}
