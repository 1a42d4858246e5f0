/** Concurrent writers of the audit log. `record` reads the tail and inserts in two
    separate steps, so other clients' steps can fall between them. */
module AuditProtocol {
  import opened Wrappers
  import opened Texts
  import opened AuditHash
  import opened AuditChain

  /** A call of `record` that has read the tail and not yet inserted; `readAt` is the
      length of the log it read. */
  datatype Pending = Pending(payload: JsObject, seen: Option<Text>, readAt: nat)

  /** `parents[i]` is the length of the log that the writer of event i had read. */
  datatype State = State(log: Log, parents: seq<nat>, nextId: nat, pending: map<nat, Pending>)

  datatype Step = Read(client: nat, payload: JsObject) | Insert(client: nat)

  /** A step takes effect when its client is where the step starts from. */
  predicate Enabled(s: State, step: Step) {
    match step
    case Read(client, _) => client !in s.pending
    case Insert(client) => client in s.pending
  }

  function Apply(scheme: Scheme, s: State, step: Step): State {
    if !Enabled(s, step) then s
    else
      match step
      case Read(client, payload) =>
        s.(pending := s.pending[client := Pending(payload, Tip(s.log), |s.log|)])
      case Insert(client) =>
        var p := s.pending[client];
        var e := AuditEventRecord(s.nextId, p.payload, ComputeHash(scheme, p.payload, p.seen), p.seen);
        State(s.log + [e], s.parents + [p.readAt], s.nextId + 1, s.pending - {client})
  }

  /** The state after a schedule, from an empty log. */
  function After(scheme: Scheme, steps: seq<Step>): State {
    if steps == [] then State([], [], 1, map[])
    else Apply(scheme, After(scheme, steps[..|steps| - 1]), steps[|steps| - 1])
  }

  /** Every event was hashed over the tail of an earlier state of the log. */
  ghost predicate Inv(scheme: Scheme, s: State) {
    && |s.parents| == |s.log|
    && (forall i {:trigger s.parents[i]} | 0 <= i < |s.log| ::
          s.parents[i] <= i && s.log[i].previousEventHash == Tip(s.log[..s.parents[i]]))
    && (forall i {:trigger HashHolds(scheme, s.log[i])} | 0 <= i < |s.log| :: HashHolds(scheme, s.log[i]))
    && (forall c | c in s.pending ::
          s.pending[c].readAt <= |s.log| && s.pending[c].seen == Tip(s.log[..s.pending[c].readAt]))
  }

  lemma {:induction false} InvHolds(scheme: Scheme, steps: seq<Step>)
    ensures Inv(scheme, After(scheme, steps))
  {
    if steps != [] {
      var s, step := After(scheme, steps[..|steps| - 1]), steps[|steps| - 1];
      InvHolds(scheme, steps[..|steps| - 1]);
      if Enabled(s, step) && step.Insert? {
        InsertKeepsInv(scheme, s, step.client);
      }
      assert s.log[..|s.log|] == s.log;
    }
  }

  lemma InsertKeepsInv(scheme: Scheme, s: State, client: nat)
    requires Inv(scheme, s) && client in s.pending
    ensures Inv(scheme, Apply(scheme, s, Insert(client)))
  {
    hide ComputeHash;
    var t := Apply(scheme, s, Insert(client));
    assert forall n | 0 <= n <= |s.log| :: t.log[..n] == s.log[..n];
  }

  /** Whatever the interleaving, an event's previous hash is absent or the hash of a
      strictly earlier event. */
  lemma PreviousIsEarlier(scheme: Scheme, steps: seq<Step>, i: nat)
    requires i < |After(scheme, steps).log|
    ensures var log := After(scheme, steps).log;
            log[i].previousEventHash == None ||
            exists j | 0 <= j < i :: log[i].previousEventHash == Some(log[j].eventHash)
  {
    InvHolds(scheme, steps);
    var s := After(scheme, steps);
    if s.parents[i] > 0 {
      assert s.log[i].previousEventHash == Some(s.log[s.parents[i] - 1].eventHash);
    }
  }

  // ---------------------------------------------------------------- no cycles

  ghost predicate NoCollisions(scheme: Scheme, log: Log) {
    forall i, j {:trigger Collide(scheme, log[i], log[j])} | 0 <= i < |log| && 0 <= j < |log| ::
      !Collide(scheme, log[i], log[j])
  }

  /** Steps from an event back to a root of the forest. */
  ghost function Depth(scheme: Scheme, s: State, i: nat): nat
    requires Inv(scheme, s) && i < |s.log|
  {
    if s.parents[i] == 0 then 0 else 1 + Depth(scheme, s, s.parents[i] - 1)
  }

  lemma PreviousIsDigest(scheme: Scheme, s: State, i: nat)
    requires Inv(scheme, s) && i < |s.log|
    ensures s.log[i].previousEventHash.Some? ==> IsDigest(s.log[i].previousEventHash.value)
  {
    if s.parents[i] > 0 {
      assert HashHolds(scheme, s.log[s.parents[i] - 1]);
    }
  }

  /** Events with equal hashes sit at equal depth, even though equal events may occur
      more than once. */
  lemma {:induction false} SameHashSameDepth(scheme: Scheme, s: State, i: nat, j: nat)
    requires Inv(scheme, s) && NoCollisions(scheme, s.log)
    requires i < |s.log| && j < |s.log| && s.log[i].eventHash == s.log[j].eventHash
    ensures Depth(scheme, s, i) == Depth(scheme, s, j)
    decreases i
  {
    PreviousIsDigest(scheme, s, i);
    PreviousIsDigest(scheme, s, j);
    assert HashHolds(scheme, s.log[i]) && HashHolds(scheme, s.log[j]);
    SameHashSameEvent(scheme, s.log[i], s.log[j]);
    assert s.log[i].previousEventHash == s.log[j].previousEventHash;
    if s.parents[i] > 0 {
      SameHashSameDepth(scheme, s, s.parents[i] - 1, s.parents[j] - 1);
    }
  }

  lemma LinkDescends(scheme: Scheme, s: State, i: nat, j: nat)
    requires Inv(scheme, s) && NoCollisions(scheme, s.log)
    requires i < |s.log| && j < |s.log| && s.log[i].previousEventHash == Some(s.log[j].eventHash)
    ensures Depth(scheme, s, i) == Depth(scheme, s, j) + 1
  {
    hide Inv, NoCollisions, HashHolds, Tip;
    ParentLinked(scheme, s, i);
    SameHashSameDepth(scheme, s, s.parents[i] - 1, j);
  }

  /** A linked event has its parent's hash for its previous one. */
  lemma ParentLinked(scheme: Scheme, s: State, i: nat)
    requires Inv(scheme, s) && i < |s.log| && s.log[i].previousEventHash.Some?
    ensures |s.parents| == |s.log| && 0 < s.parents[i] <= i
    ensures s.log[i].previousEventHash == Some(s.log[s.parents[i] - 1].eventHash)
  {
    hide HashHolds;
  }

  /** A walk along previous-hash links. */
  ghost predicate Walk(log: Log, path: seq<nat>) {
    && (forall k | 0 <= k < |path| :: path[k] < |log|)
    && (forall k | 0 <= k < |path| - 1 :: log[path[k]].previousEventHash == Some(log[path[k + 1]].eventHash))
  }

  lemma {:induction false} WalkDescends(scheme: Scheme, s: State, path: seq<nat>, k: nat)
    requires Inv(scheme, s) && NoCollisions(scheme, s.log)
    requires Walk(s.log, path) && k < |path|
    ensures Depth(scheme, s, path[0]) == Depth(scheme, s, path[k]) + k
  {
    hide Inv, NoCollisions, HashHolds, Depth;
    if k > 0 {
      WalkDescends(scheme, s, path, k - 1);
      LinkDescends(scheme, s, path[k - 1], path[k]);
    }
  }

  /** Under every schedule the links by hash form a forest: no walk along them, however
      it picks among equal hashes, comes back to a hash it has left. */
  lemma LogIsForest(scheme: Scheme, steps: seq<Step>, path: seq<nat>)
    requires NoCollisions(scheme, After(scheme, steps).log)
    requires Walk(After(scheme, steps).log, path) && |path| > 1
    ensures var log := After(scheme, steps).log;
            log[path[0]].eventHash != log[path[|path| - 1]].eventHash
  {
    var s := After(scheme, steps);
    InvHolds(scheme, steps);
    WalkDescends(scheme, s, path, |path| - 1);
    if s.log[path[0]].eventHash == s.log[path[|path| - 1]].eventHash {
      SameHashSameDepth(scheme, s, path[0], path[|path| - 1]);
    }
  }

  // ---------------------------------------------------------------- when the log is a line

  /** The log is one line, each event linked to the one before it. */
  ghost predicate Linear(log: Log) {
    forall i | 0 <= i < |log| :: log[i].previousEventHash == Tip(log[..i])
  }

  /** Step q takes effect. */
  ghost predicate Effective(scheme: Scheme, steps: seq<Step>, q: nat)
    requires q < |steps|
  {
    Enabled(After(scheme, steps[..q]), steps[q])
  }

  /** Step q inserts for a client that read at step p, and step r inserted for another
      client in between. */
  ghost predicate Overtakes(scheme: Scheme, steps: seq<Step>, p: nat, r: nat, q: nat)
    requires p < r < q < |steps|
  {
    && steps[q].Insert? && Effective(scheme, steps, q)
    && steps[p].Read? && steps[p].client == steps[q].client && Effective(scheme, steps, p)
    && steps[r].Insert? && steps[r].client != steps[q].client && Effective(scheme, steps, r)
    && forall k | p < k < q && steps[k].client == steps[q].client :: !Effective(scheme, steps, k)
  }

  ghost predicate Undisturbed(scheme: Scheme, steps: seq<Step>) {
    forall p: nat, r: nat, q: nat | p < r < q < |steps| :: !Overtakes(scheme, steps, p, r, q)
  }

  /** A client with a read pending read at some effective step, and has rested since. */
  lemma {:induction false} PendingSince(scheme: Scheme, steps: seq<Step>, n: nat, client: nat) returns (p: nat)
    requires n <= |steps| && client in After(scheme, steps[..n]).pending
    ensures p < n && steps[p].Read? && steps[p].client == client && Effective(scheme, steps, p)
    ensures After(scheme, steps[..n]).pending[client].readAt == |After(scheme, steps[..p]).log|
    ensures forall k | p < k < n && steps[k].client == client :: !Effective(scheme, steps, k)
  {
    assert steps[..n][..n - 1] == steps[..n - 1];
    var before := After(scheme, steps[..n - 1]);
    if steps[n - 1].client == client && Enabled(before, steps[n - 1]) {
      p := n - 1;
    } else {
      p := PendingSince(scheme, steps, n - 1, client);
    }
  }

  /** The log only grows, and by one event at each effective insert. */
  lemma {:induction false} Growth(scheme: Scheme, steps: seq<Step>, p: nat, q: nat)
    requires p <= q <= |steps|
    ensures |After(scheme, steps[..p]).log| <= |After(scheme, steps[..q]).log|
    ensures |After(scheme, steps[..p]).log| < |After(scheme, steps[..q]).log|
       <==> exists r: nat | p <= r < q :: steps[r].Insert? && Effective(scheme, steps, r)
  {
    if p < q {
      Growth(scheme, steps, p, q - 1);
      assert steps[..q][..q - 1] == steps[..q - 1];
      var r: nat := q - 1;
      assert steps[r].Insert? && Effective(scheme, steps, r) ==>
        |After(scheme, steps[..q]).log| == |After(scheme, steps[..r]).log| + 1;
      assert !(steps[r].Insert? && Effective(scheme, steps, r)) ==>
        |After(scheme, steps[..q]).log| == |After(scheme, steps[..r]).log|;
    }
  }

  /** An insert is stale exactly when another client's insert overtook it. */
  lemma StaleIffOvertaken(scheme: Scheme, steps: seq<Step>, q: nat)
    requires q < |steps| && steps[q].Insert? && Effective(scheme, steps, q)
    ensures After(scheme, steps[..q]).pending[steps[q].client].readAt < |After(scheme, steps[..q]).log|
       <==> exists p: nat, r: nat | p < r < q :: Overtakes(scheme, steps, p, r, q)
  {
    var client := steps[q].client;
    var p := PendingSince(scheme, steps, q, client);
    Growth(scheme, steps, p, q);
    if r: nat :| p <= r < q && steps[r].Insert? && Effective(scheme, steps, r) {
      assert r != p;
      assert Overtakes(scheme, steps, p, r, q);
    }
    forall p': nat, r: nat | p' < r < q && Overtakes(scheme, steps, p', r, q)
      ensures p' == p
    {
      if p' < p {
        assert false;
      } else if p < p' {
        assert false;
      }
    }
  }

  /** Every writer had read the whole log when it inserted. */
  ghost predicate AllFresh(s: State) {
    forall i | 0 <= i < |s.parents| :: s.parents[i] == i
  }

  lemma NothingOvertaken(scheme: Scheme, steps: seq<Step>, q: nat)
    requires q < |steps| && !(steps[q].Insert? && Effective(scheme, steps, q))
    ensures forall p: nat, r: nat | p < r < q :: !Overtakes(scheme, steps, p, r, q)
  {
    hide Effective;
  }

  lemma {:induction false} FreshIffUndisturbed(scheme: Scheme, steps: seq<Step>)
    ensures AllFresh(After(scheme, steps)) <==> Undisturbed(scheme, steps)
  {
    hide Overtakes, ComputeHash, LinkHolds;
    if steps != [] {
      var n := |steps| - 1;
      var front := steps[..n];
      var s := After(scheme, front);
      InvHolds(scheme, front);
      FreshIffUndisturbed(scheme, front);
      UndisturbedFront(scheme, steps);
      assert Effective(scheme, steps, n) <==> Enabled(s, steps[n]);
      if steps[n].Insert? && Effective(scheme, steps, n) {
        StaleIffOvertaken(scheme, steps, n);
        var t := After(scheme, steps);
        assert t.parents == s.parents + [s.pending[steps[n].client].readAt];
        assert forall i | 0 <= i < |s.parents| :: t.parents[i] == s.parents[i];
        assert t.parents[|s.parents|] == s.pending[steps[n].client].readAt;
      } else {
        assert After(scheme, steps).parents == s.parents;
        NothingOvertaken(scheme, steps, n);
      }
    }
  }

  /** The schedule is undisturbed when its front is and its last step overtakes nobody. */
  lemma UndisturbedFront(scheme: Scheme, steps: seq<Step>)
    requires steps != []
    ensures var n := |steps| - 1;
            Undisturbed(scheme, steps) <==>
            Undisturbed(scheme, steps[..n]) && forall p: nat, r: nat | p < r < n :: !Overtakes(scheme, steps, p, r, n)
  {
    var n := |steps| - 1;
    var front := steps[..n];
    assert forall q: nat | q < n :: front[..q] == steps[..q] && front[q] == steps[q];
    forall p: nat, r: nat, q: nat | p < r < q < n
      ensures Overtakes(scheme, steps, p, r, q) <==> Overtakes(scheme, front, p, r, q)
    {
      assert forall k: nat | k < n :: Effective(scheme, steps, k) <==> Effective(scheme, front, k);
    }
  }

  lemma {:induction false} FreshDepth(scheme: Scheme, s: State, n: nat, i: nat)
    requires Inv(scheme, s) && i < n <= |s.log| && forall k | 0 <= k < n :: s.parents[k] == k
    ensures Depth(scheme, s, i) == i
  {
    if i > 0 {
      FreshDepth(scheme, s, n, i - 1);
    }
  }

  /** An event over fresh ones cannot link to both an earlier tail and the last. */
  lemma NoStaleLink(scheme: Scheme, s: State, i: nat)
    requires Inv(scheme, s) && NoCollisions(scheme, s.log) && i < |s.log|
    requires forall k | 0 <= k < i :: s.parents[k] == k
    requires s.log[i].previousEventHash == Tip(s.log[..i])
    ensures s.parents[i] == i
  {
    var a := s.parents[i];
    assert Tip(s.log[..a]) == Tip(s.log[..i]);
    if a < i {
      hide Inv, NoCollisions, Depth;
      SameHashSameDepth(scheme, s, a - 1, i - 1);
      FreshDepth(scheme, s, i, a - 1);
      FreshDepth(scheme, s, i, i - 1);
    }
  }

  /** A linear log has no stale event among its first n. */
  lemma {:induction false} LinearIsFresh(scheme: Scheme, s: State, n: nat)
    requires Inv(scheme, s) && NoCollisions(scheme, s.log) && Linear(s.log) && n <= |s.log|
    ensures forall k | 0 <= k < n :: s.parents[k] == k
  {
    if n > 0 {
      LinearIsFresh(scheme, s, n - 1);
      NoStaleLink(scheme, s, n - 1);
    }
  }

  lemma LinearIffFresh(scheme: Scheme, s: State)
    requires Inv(scheme, s) && NoCollisions(scheme, s.log)
    ensures Linear(s.log) <==> AllFresh(s)
  {
    if Linear(s.log) {
      LinearIsFresh(scheme, s, |s.log|);
    }
    if AllFresh(s) {
      forall i | 0 <= i < |s.log| ensures s.log[i].previousEventHash == Tip(s.log[..i]) {
        assert s.parents[i] == i;
      }
    }
  }

  /** The log comes out as a single line exactly when no client's insert was overtaken
      by another's between its own read and insert. */
  lemma LinearIffUndisturbed(scheme: Scheme, steps: seq<Step>)
    requires NoCollisions(scheme, After(scheme, steps).log)
    ensures Linear(After(scheme, steps).log) <==> Undisturbed(scheme, steps)
  {
    InvHolds(scheme, steps);
    LinearIffFresh(scheme, After(scheme, steps));
    FreshIffUndisturbed(scheme, steps);
  }

  /** The shortest fork: two clients read the empty log, then both insert. */
  lemma TwoReadersFork(scheme: Scheme, a: JsObject, b: JsObject)
    ensures var log := After(scheme, [Read(1, a), Read(2, b), Insert(1), Insert(2)]).log;
            |log| == 2 && log[0].previousEventHash == None && log[1].previousEventHash == None && !Linear(log)
  {
    var steps := [Read(1, a), Read(2, b), Insert(1), Insert(2)];
    assert steps[..3] == [Read(1, a), Read(2, b), Insert(1)];
    assert steps[..3][..2] == [Read(1, a), Read(2, b)];
    assert [Read(1, a), Read(2, b)][..1] == [Read(1, a)];
    assert [Read(1, a)][..0] == [];
    var s0 := After(scheme, []);
    var s1 := After(scheme, [Read(1, a)]);
    var s2 := After(scheme, [Read(1, a), Read(2, b)]);
    assert s2.log == [] && s2.pending[1].seen == None && s2.pending[2].seen == None;
    var s3 := After(scheme, steps[..3]);
    assert |s3.log| == 1 && 2 in s3.pending && s3.pending[2].seen == None;
    var log := After(scheme, steps).log;
    assert Tip(log[..1]).Some?;
  }
}
