/** The hash-chained audit log: what a valid chain is, why tampering with one shows,
    and the service that appends to it. */
module AuditChain {
  import opened Wrappers
  import opened Texts
  import opened Hex
  import opened AuditHash

  /** A stored event. `id` is not hashed. */
  datatype AuditEventRecord =
    AuditEventRecord(id: nat, payload: JsObject, eventHash: Text, previousEventHash: Option<Text>)

  type Log = seq<AuditEventRecord>

  /** The hash of the last event, if there is one. */
  function Tip(log: Log): Option<Text> {
    if log == [] then None else Some(log[|log| - 1].eventHash)
  }

  /** The bytes a stored event was, or would be, hashed from. */
  function StreamOf(scheme: Scheme, e: AuditEventRecord): Bytes {
    Stream(scheme, e.payload, e.previousEventHash)
  }

  /** Recomputing the hash of a stored event gives the stored hash. */
  ghost predicate HashHolds(scheme: Scheme, e: AuditEventRecord) {
    e.eventHash == ComputeHash(scheme, e.payload, e.previousEventHash)
  }

  /** The verifier's check: every event links to the one just before it and its hash
      can be recomputed from its own fields. */
  ghost predicate ChainValid(scheme: Scheme, log: Log) {
    forall i | 0 <= i < |log| :: LinkHolds(scheme, log, i)
  }

  ghost predicate LinkHolds(scheme: Scheme, log: Log, i: int)
    requires 0 <= i < |log|
  {
    HashHolds(scheme, log[i]) && log[i].previousEventHash == Tip(log[..i])
  }

  /** The same event, as far as the hash covers it. */
  ghost predicate SameEvent(keys: seq<Text>, e: AuditEventRecord, f: AuditEventRecord) {
    && e.eventHash == f.eventHash && e.previousEventHash == f.previousEventHash
    && SameOn(keys, e.payload, f.payload)
  }

  ghost predicate SameLog(keys: seq<Text>, a: Log, b: Log) {
    |a| == |b| && forall i | 0 <= i < |a| :: SameEvent(keys, a[i], b[i])
  }

  /** The two events exhibit a collision of the digest. */
  ghost predicate Collide(scheme: Scheme, e: AuditEventRecord, f: AuditEventRecord) {
    && StreamOf(scheme, e) != StreamOf(scheme, f)
    && scheme.sha256(StreamOf(scheme, e)) == scheme.sha256(StreamOf(scheme, f))
  }

  ghost predicate CollisionBetween(scheme: Scheme, a: Log, b: Log) {
    exists i, j {:trigger Collide(scheme, a[i], b[j])} | 0 <= i < |a| && 0 <= j < |b| :: Collide(scheme, a[i], b[j])
  }

  /** Two events whose stored hashes hold and agree are the same event, or a collision. */
  lemma SameHashSameEvent(scheme: Scheme, e: AuditEventRecord, f: AuditEventRecord)
    requires HashHolds(scheme, e) && HashHolds(scheme, f) && e.eventHash == f.eventHash
    requires e.previousEventHash.Some? ==> IsDigest(e.previousEventHash.value)
    requires f.previousEventHash.Some? ==> IsDigest(f.previousEventHash.value)
    ensures SameEvent(scheme.keys, e, f) || Collide(scheme, e, f)
  {
    FromHexInverts(scheme.sha256(StreamOf(scheme, e)));
    FromHexInverts(scheme.sha256(StreamOf(scheme, f)));
    StreamEqualIff(scheme, e.payload, e.previousEventHash, f.payload, f.previousEventHash);
  }

  lemma PrefixValid(scheme: Scheme, log: Log, n: nat)
    requires ChainValid(scheme, log) && n <= |log|
    ensures ChainValid(scheme, log[..n])
  {
    forall i | 0 <= i < n ensures LinkHolds(scheme, log[..n], i) {
      assert LinkHolds(scheme, log, i) && log[..n][..i] == log[..i];
    }
  }

  lemma TipIsDigest(scheme: Scheme, log: Log)
    requires ChainValid(scheme, log)
    ensures Tip(log).Some? ==> IsDigest(Tip(log).value)
  {
    if log != [] {
      assert LinkHolds(scheme, log, |log| - 1);
    }
  }

  /** Two valid logs with the same tip end in the same event over the same tip, or
      their last events collide. */
  lemma LastEvents(scheme: Scheme, a: Log, b: Log)
    requires ChainValid(scheme, a) && ChainValid(scheme, b) && Tip(a) == Tip(b) && a != []
    ensures b != []
    ensures Collide(scheme, a[|a| - 1], b[|b| - 1]) ||
            (SameEvent(scheme.keys, a[|a| - 1], b[|b| - 1]) && Tip(a[..|a| - 1]) == Tip(b[..|b| - 1]))
  {
    var n, m := |a| - 1, |b| - 1;
    PrefixValid(scheme, a, n);
    PrefixValid(scheme, b, m);
    TipIsDigest(scheme, a[..n]);
    TipIsDigest(scheme, b[..m]);
    assert LinkHolds(scheme, a, n) && LinkHolds(scheme, b, m);
    SameHashSameEvent(scheme, a[n], b[m]);
  }

  lemma CollisionLifts(scheme: Scheme, a: Log, b: Log, n: nat, m: nat)
    requires n <= |a| && m <= |b| && CollisionBetween(scheme, a[..n], b[..m])
    ensures CollisionBetween(scheme, a, b)
  {
    var i, j :| 0 <= i < n && 0 <= j < m && Collide(scheme, a[..n][i], b[..m][j]);
    assert Collide(scheme, a[i], b[j]);
  }

  lemma SameLogSnoc(keys: seq<Text>, a: Log, b: Log)
    requires a != [] && b != [] && SameLog(keys, a[..|a| - 1], b[..|b| - 1])
    requires SameEvent(keys, a[|a| - 1], b[|b| - 1])
    ensures SameLog(keys, a, b)
  {
    var n := |a| - 1;
    forall i | 0 <= i < |a| ensures SameEvent(keys, a[i], b[i]) {
      if i < n {
        assert SameEvent(keys, a[..n][i], b[..n][i]);
      }
    }
  }

  /** Tamper evidence. Two logs that both pass the check and end in the same hash are
      the same log, entry by entry and in length; the only way out is a pair of
      events, one from each, that collide. */
  lemma {:induction false} TamperEvidence(scheme: Scheme, a: Log, b: Log)
    requires ChainValid(scheme, a) && ChainValid(scheme, b) && Tip(a) == Tip(b)
    ensures SameLog(scheme.keys, a, b) || CollisionBetween(scheme, a, b)
  {
    if a != [] {
      var n, m := |a| - 1, |b| - 1;
      LastEvents(scheme, a, b);
      if !Collide(scheme, a[n], b[m]) {
        PrefixValid(scheme, a, n);
        PrefixValid(scheme, b, m);
        TamperEvidence(scheme, a[..n], b[..m]);
        if SameLog(scheme.keys, a[..n], b[..m]) {
          SameLogSnoc(scheme.keys, a, b);
        } else {
          CollisionLifts(scheme, a, b, n, m);
        }
      }
    }
  }

  /** Replacing any event but the last by one that hashes differently, or the last one
      while keeping its stored hash, breaks the check or exhibits a collision. */
  lemma EditShows(scheme: Scheme, log: Log, i: nat, e: AuditEventRecord)
    requires ChainValid(scheme, log) && i < |log| && !SameEvent(scheme.keys, log[i], e)
    requires i == |log| - 1 ==> e.eventHash == log[i].eventHash
    ensures !ChainValid(scheme, log[i := e]) || CollisionBetween(scheme, log, log[i := e])
  {
    if ChainValid(scheme, log[i := e]) {
      TamperEvidence(scheme, log, log[i := e]);
    }
  }

  /** So does swapping any two events, the last included: the later one was hashed over
      the tail it stood after, and now stands after another. */
  lemma SwapShows(scheme: Scheme, log: Log, i: nat, j: nat)
    requires ChainValid(scheme, log) && i < j < |log|
    ensures var swapped := log[i := log[j]][j := log[i]];
            !ChainValid(scheme, swapped) || CollisionBetween(scheme, log, log)
  {
    var swapped := log[i := log[j]][j := log[i]];
    if ChainValid(scheme, swapped) {
      assert LinkHolds(scheme, swapped, i) && LinkHolds(scheme, log, j);
      assert swapped[..i] == log[..i];
      PrefixValid(scheme, log, i);
      PrefixValid(scheme, log, j);
      TamperEvidence(scheme, log[..i], log[..j]);
      CollisionLifts(scheme, log, log, i, j);
    }
  }

  /** So does dropping any run of events that stops short of the last. */
  lemma DropShows(scheme: Scheme, log: Log, i: nat, j: nat)
    requires ChainValid(scheme, log) && i < j < |log|
    ensures var dropped := log[..i] + log[j..];
            !ChainValid(scheme, dropped) || CollisionBetween(scheme, log, dropped)
  {
    var dropped := log[..i] + log[j..];
    if ChainValid(scheme, dropped) {
      TamperEvidence(scheme, log, dropped);
    }
  }

  /** Dropping a tail does not show: every prefix of a valid log passes the check.
      Nor does renumbering: ids are not hashed. */
  lemma TruncationAndIdsPass(scheme: Scheme, log: Log, n: nat, ids: seq<nat>)
    requires ChainValid(scheme, log) && n <= |log| && |ids| == n
    ensures ChainValid(scheme, seq(n, i requires 0 <= i < n => log[i].(id := ids[i])))
  {
    var kept := seq(n, i requires 0 <= i < n => log[i].(id := ids[i]));
    forall i | 0 <= i < n ensures LinkHolds(scheme, kept, i) {
      assert LinkHolds(scheme, log, i) && Tip(kept[..i]) == Tip(log[..i]);
    }
  }

  // ---------------------------------------------------------------- the service

  /** The event that recording `payload` after `log` stores. */
  function NextEvent(scheme: Scheme, log: Log, payload: JsObject, id: nat): AuditEventRecord {
    AuditEventRecord(id, payload, ComputeHash(scheme, payload, Tip(log)), Tip(log))
  }

  lemma AppendKeepsChain(scheme: Scheme, log: Log, payload: JsObject, id: nat)
    requires ChainValid(scheme, log)
    ensures ChainValid(scheme, log + [NextEvent(scheme, log, payload, id)])
  {
    var longer := log + [NextEvent(scheme, log, payload, id)];
    forall i | 0 <= i < |longer| ensures LinkHolds(scheme, longer, i) {
      if i < |log| {
        assert LinkHolds(scheme, log, i) && longer[..i] == log[..i];
      } else {
        assert longer[..i] == log;
      }
    }
  }

  class InMemoryAuditEventRepository {
    var events: Log
    var nextId: nat

    constructor ()
      ensures events == [] && nextId == 1
    {
      events, nextId := [], 1;
    }

    method GetLastEvent() returns (last: Option<AuditEventRecord>)
      ensures last == if events == [] then None else Some(events[|events| - 1])
    {
      last := if |events| == 0 then None else Some(events[|events| - 1]);
    }

    method InsertEvent(payload: JsObject, eventHash: Text, previousEventHash: Option<Text>)
      returns (stored: AuditEventRecord)
      modifies this
      ensures stored == AuditEventRecord(old(nextId), payload, eventHash, previousEventHash)
      ensures events == old(events) + [stored] && nextId == old(nextId) + 1
    {
      stored := AuditEventRecord(nextId, payload, eventHash, previousEventHash);
      nextId := nextId + 1;
      events := events + [stored];
    }
  }

  class AuditService {
    const repository: InMemoryAuditEventRepository
    const scheme: Scheme

    constructor (repository: InMemoryAuditEventRepository, scheme: Scheme)
      ensures this.repository == repository && this.scheme == scheme
    {
      this.repository, this.scheme := repository, scheme;
    }

    /** Called without interference, `record` extends the log by one linked event. */
    method Record(payload: JsObject) returns (stored: AuditEventRecord)
      modifies repository
      ensures stored == NextEvent(scheme, old(repository.events), payload, old(repository.nextId))
      ensures repository.events == old(repository.events) + [stored]
      ensures repository.nextId == old(repository.nextId) + 1
      ensures old(ChainValid(scheme, repository.events)) ==> ChainValid(scheme, repository.events)
    {
      var last := repository.GetLastEvent();
      var previousEventHash := if last.Some? then Some(last.value.eventHash) else None;
      var eventHash := ComputeAuditEventHash(scheme, payload, previousEventHash);
      stored := repository.InsertEvent(payload, eventHash, previousEventHash);
      if ChainValid(scheme, old(repository.events)) {
        AppendKeepsChain(scheme, old(repository.events), payload, old(repository.nextId));
      }
    }
  }
}
