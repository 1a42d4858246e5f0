/** The database repository's append: one transaction that takes a transaction-scoped
    advisory lock, looks for an earlier event of the same provider event, reads the
    tail and inserts. Each statement is a step; any number of clients interleave, and
    any transaction may abort at any point. */
module AtomicAppend {
  import opened Wrappers
  import opened Texts
  import opened Json
  import opened AuditHash
  import opened AuditChain

  /** Which provider event and action an event records, if it records one; the empty
      id counts as none. */
  function ProviderKey(payload: JsObject): Option<(Text, Option<Json>)> {
    match Get(payload, Units("providerEventId"))
    case Some(String(id)) => if id == [] then None else Some((id, Get(payload, Units("action"))))
    case _ => None
  }

  /** The committed event that already records the key of `payload`. */
  function FindRecorded(log: Log, payload: JsObject): (r: Option<AuditEventRecord>)
    ensures r.Some? ==> r.value in log && ProviderKey(r.value.payload) == ProviderKey(payload) != None
    ensures r.None? && ProviderKey(payload).Some? ==>
      forall e | e in log :: ProviderKey(e.payload) != ProviderKey(payload)
  {
    if ProviderKey(payload).None? || log == [] then None
    else if ProviderKey(log[0].payload) == ProviderKey(payload) then Some(log[0])
    else FindRecorded(log[1..], payload)
  }

  /** Where a client's transaction stands; everything past Waiting holds the lock. */
  datatype Phase =
    | Waiting(payload: JsObject)
    | Locked(payload: JsObject)
    | Unrecorded(payload: JsObject)
    | Tailed(payload: JsObject, tail: Option<Text>)
    | Inserted(row: AuditEventRecord)
    | Found(row: AuditEventRecord)

  /** `log` holds the committed rows; ids come from a sequence that never goes back. */
  datatype State = State(log: Log, nextId: nat, lock: Option<nat>, clients: map<nat, Phase>)

  datatype Step = Begin(client: nat, payload: JsObject) | Advance(client: nat) | Abort(client: nat)

  function Apply(scheme: Scheme, s: State, step: Step): State {
    match step
    case Begin(c, payload) =>
      if c in s.clients then s else s.(clients := s.clients[c := Waiting(payload)])
    case Abort(c) =>
      s.(clients := s.clients - {c}, lock := if s.lock == Some(c) then None else s.lock)
    case Advance(c) =>
      if c !in s.clients then s else Advanced(scheme, s, c, s.clients[c])
  }

  /** The client's next statement. A waiting client stays put while the lock is held. */
  function Advanced(scheme: Scheme, s: State, c: nat, phase: Phase): State {
    match phase
    case Waiting(payload) =>
      if s.lock.Some? then s else s.(lock := Some(c), clients := s.clients[c := Locked(payload)])
    case Locked(payload) =>
      var recorded := FindRecorded(s.log, payload);
      s.(clients := s.clients[c := if recorded.Some? then Found(recorded.value) else Unrecorded(payload)])
    case Unrecorded(payload) =>
      s.(clients := s.clients[c := Tailed(payload, Tip(s.log))])
    case Tailed(payload, tail) =>
      var row := AuditEventRecord(s.nextId, payload, ComputeHash(scheme, payload, tail), tail);
      s.(nextId := s.nextId + 1, clients := s.clients[c := Inserted(row)])
    case Inserted(row) =>
      State(s.log + [row], s.nextId, None, s.clients - {c})
    case Found(_) =>
      s.(lock := None, clients := s.clients - {c})
  }

  function After(scheme: Scheme, steps: seq<Step>): State {
    if steps == [] then State([], 1, None, map[])
    else Apply(scheme, After(scheme, steps[..|steps| - 1]), steps[|steps| - 1])
  }

  /** No two events record the same action of the same provider event. */
  ghost predicate RecordedOnce(log: Log) {
    forall i, j | 0 <= i < j < |log| && ProviderKey(log[i].payload).Some? ::
      ProviderKey(log[i].payload) != ProviderKey(log[j].payload)
  }

  ghost predicate IdsIncrease(log: Log, nextId: nat) {
    && (forall i, j | 0 <= i < j < |log| :: log[i].id < log[j].id)
    && (forall i | 0 <= i < |log| :: log[i].id < nextId)
  }

  ghost predicate New(log: Log, payload: JsObject) {
    ProviderKey(payload).Some? ==> forall e | e in log :: ProviderKey(e.payload) != ProviderKey(payload)
  }

  /** What a phase has established about the committed log. */
  ghost predicate PhaseHolds(scheme: Scheme, s: State, phase: Phase) {
    match phase
    case Unrecorded(payload) => New(s.log, payload)
    case Tailed(payload, tail) => New(s.log, payload) && tail == Tip(s.log)
    case Inserted(row) =>
      && New(s.log, row.payload) && row == NextEvent(scheme, s.log, row.payload, row.id)
      && row.id < s.nextId && forall e | e in s.log :: e.id < row.id
    case Found(row) => row in s.log
    case _ => true
  }

  ghost predicate Inv(scheme: Scheme, s: State) {
    && ChainValid(scheme, s.log) && IdsIncrease(s.log, s.nextId) && RecordedOnce(s.log)
    && (s.lock.Some? ==> s.lock.value in s.clients)
    && (forall c | c in s.clients :: !s.clients[c].Waiting? <==> s.lock == Some(c))
    && (forall c | c in s.clients :: PhaseHolds(scheme, s, s.clients[c]))
  }

  lemma InsertKeeps(scheme: Scheme, s: State, row: AuditEventRecord)
    requires Inv(scheme, s) && PhaseHolds(scheme, s, Inserted(row))
    ensures ChainValid(scheme, s.log + [row]) && IdsIncrease(s.log + [row], s.nextId) && RecordedOnce(s.log + [row])
  {
    AppendKeepsChain(scheme, s.log, row.payload, row.id);
    var longer := s.log + [row];
    forall i, j | 0 <= i < j < |longer| && ProviderKey(longer[i].payload).Some?
      ensures ProviderKey(longer[i].payload) != ProviderKey(longer[j].payload)
    {
      assert longer[i] in s.log;
    }
    forall i | 0 <= i < |s.log| ensures longer[i].id < row.id {
      assert s.log[i] in s.log;
    }
  }

  lemma AdvanceKeeps(scheme: Scheme, s: State, c: nat)
    requires Inv(scheme, s) && c in s.clients
    ensures Inv(scheme, Advanced(scheme, s, c, s.clients[c]))
  {
    var phase := s.clients[c];
    assert PhaseHolds(scheme, s, phase);
    if phase.Inserted? {
      InsertKeeps(scheme, s, phase.row);
    } else if phase.Tailed? {
      forall e | e in s.log ensures e.id < s.nextId {
        var i :| 0 <= i < |s.log| && s.log[i] == e;
      }
    }
  }

  /** Under every schedule of any clients, with any aborts, the committed log is one
      valid chain from one root, in id order, with each provider event's action
      recorded at most once. */
  lemma {:induction false} NeverForks(scheme: Scheme, steps: seq<Step>)
    ensures Inv(scheme, After(scheme, steps))
  {
    if steps != [] {
      var s, step := After(scheme, steps[..|steps| - 1]), steps[|steps| - 1];
      NeverForks(scheme, steps[..|steps| - 1]);
      if step.Advance? && step.client in s.clients {
        AdvanceKeeps(scheme, s, step.client);
      }
    }
  }

  /** Committed events are never changed or removed by later steps. */
  lemma {:induction false} AppendOnly(scheme: Scheme, steps: seq<Step>, more: seq<Step>)
    ensures After(scheme, steps).log <= After(scheme, steps + more).log
  {
    if more == [] {
      assert steps + more == steps;
    } else {
      var all := steps + more;
      assert all[..|all| - 1] == steps + more[..|more| - 1];
      AppendOnly(scheme, steps, more[..|more| - 1]);
    }
  }

  function RunFrom(scheme: Scheme, s: State, steps: seq<Step>): State
    decreases |steps|
  {
    if steps == [] then s else RunFrom(scheme, Apply(scheme, s, steps[0]), steps[1..])
  }

  function Advances(c: nat, n: nat): seq<Step> {
    seq(n, _ => Advance(c))
  }

  /** Run alone, the statements begin, lock, look, read, insert, commit are
      `AuditService.record`: they append the next event, and leave the lock free. */
  lemma AloneItRecords(scheme: Scheme, s: State, c: nat, payload: JsObject)
    requires s.lock == None && c !in s.clients && FindRecorded(s.log, payload).None?
    ensures RunFrom(scheme, s, [Begin(c, payload)] + Advances(c, 5))
         == State(s.log + [NextEvent(scheme, s.log, payload, s.nextId)], s.nextId + 1, None, s.clients)
  {
    hide ComputeHash, FindRecorded;
    var a := Advance(c);
    var s1 := Apply(scheme, s, Begin(c, payload));
    var s2 := Apply(scheme, s1, a);
    var s3 := Apply(scheme, s2, a);
    var s4 := Apply(scheme, s3, a);
    var s5 := Apply(scheme, s4, a);
    assert s5.clients == s.clients[c := Inserted(NextEvent(scheme, s.log, payload, s.nextId))];
    var s6 := Apply(scheme, s5, a);
    assert s6.clients == s.clients;
    Peel(scheme, s5, a, []);
    Peel(scheme, s4, a, [a]);
    Peel(scheme, s3, a, [a, a]);
    Peel(scheme, s2, a, [a, a, a]);
    Peel(scheme, s1, a, [a, a, a, a]);
    assert Advances(c, 5) == [a, a, a, a, a];
    Peel(scheme, s, Begin(c, payload), Advances(c, 5));
  }

  lemma Peel(scheme: Scheme, s: State, step: Step, rest: seq<Step>)
    ensures RunFrom(scheme, s, [step] + rest) == RunFrom(scheme, Apply(scheme, s, step), rest)
  {
    assert ([step] + rest)[1..] == rest;
  }

  lemma {:induction false} RunFromJoins(scheme: Scheme, s: State, first: seq<Step>, more: seq<Step>)
    ensures RunFrom(scheme, s, first + more) == RunFrom(scheme, RunFrom(scheme, s, first), more)
    decreases |first|
  {
    if first == [] {
      assert first + more == more;
    } else {
      assert first + more == [first[0]] + (first[1..] + more);
      Peel(scheme, s, first[0], first[1..] + more);
      RunFromJoins(scheme, Apply(scheme, s, first[0]), first[1..], more);
    }
  }

  /** With the provider event already recorded, the same statements change nothing. */
  lemma AloneItRepeatsNothing(scheme: Scheme, s: State, c: nat, payload: JsObject)
    requires s.lock == None && c !in s.clients && FindRecorded(s.log, payload).Some?
    ensures RunFrom(scheme, s, [Begin(c, payload)] + Advances(c, 3)) == s
  {
    hide ComputeHash, FindRecorded;
    var a := Advance(c);
    var s1 := Apply(scheme, s, Begin(c, payload));
    var s2 := Apply(scheme, s1, a);
    var s3 := Apply(scheme, s2, a);
    assert s3.clients == s.clients[c := Found(FindRecorded(s.log, payload).value)];
    var s4 := Apply(scheme, s3, a);
    assert s4.clients == s.clients;
    Peel(scheme, s3, a, []);
    Peel(scheme, s2, a, [a]);
    Peel(scheme, s1, a, [a, a]);
    assert Advances(c, 3) == [a, a, a];
    Peel(scheme, s, Begin(c, payload), Advances(c, 3));
  }

  // ---------------------------------------------------------------- by property names alone

  /** The two payloads name one provider event, by a string that is not empty, and have
      the same action. */
  ghost predicate SameProviderAction(p: JsObject, q: JsObject) {
    && Get(p, Units("action")) == Get(q, Units("action"))
    && exists id: Text :: id != [] &&
         Get(p, Units("providerEventId")) == Some(String(id)) && Get(q, Units("providerEventId")) == Some(String(id))
  }

  lemma KeyIs(p: JsObject, q: JsObject)
    ensures ProviderKey(p) == ProviderKey(q) != None <==> SameProviderAction(p, q)
  {
    if SameProviderAction(p, q) {
      var id: Text :| id != [] &&
        Get(p, Units("providerEventId")) == Some(String(id)) && Get(q, Units("providerEventId")) == Some(String(id));
    }
    if ProviderKey(p) == ProviderKey(q) != None {
      var id := ProviderKey(p).value.0;
      assert Get(p, Units("providerEventId")) == Some(String(id));
      assert Get(q, Units("providerEventId")) == Some(String(id));
    }
  }

  /** An event is found exactly when some committed event is of the same provider event
      and action, and then it is such a one. */
  lemma FindRecordedIff(log: Log, payload: JsObject)
    ensures FindRecorded(log, payload).Some? <==> exists e | e in log :: SameProviderAction(e.payload, payload)
    ensures var r := FindRecorded(log, payload);
            r.Some? ==> r.value in log && SameProviderAction(r.value.payload, payload)
  {
    hide SameProviderAction;
    forall e | e in log ensures SameProviderAction(e.payload, payload) <==>
      ProviderKey(e.payload) == ProviderKey(payload) != None
    {
      KeyIs(e.payload, payload);
    }
  }

  /** Run alone, a transaction leaves the whole state as it was exactly when a committed
      event is of the same provider event and action; otherwise it appends the next event
      and nothing else. */
  lemma AloneIff(scheme: Scheme, s: State, c: nat, payload: JsObject)
    requires s.lock == None && c !in s.clients
    ensures var t := RunFrom(scheme, s, [Begin(c, payload)] + Advances(c, 5));
            var known := exists e | e in s.log :: SameProviderAction(e.payload, payload);
            && (t.log == s.log <==> known)
            && (known ==> t == s)
            && (!known ==> t.log == s.log + [NextEvent(scheme, s.log, payload, s.nextId)]
                           && t.lock == None && t.clients == s.clients)
  {
    hide SameProviderAction, FindRecorded, Apply;
    FindRecordedIff(s.log, payload);
    if FindRecorded(s.log, payload).Some? {
      AloneItRepeatsNothing(scheme, s, c, payload);
      var first := [Begin(c, payload)] + Advances(c, 3);
      assert [Begin(c, payload)] + Advances(c, 5) == first + [Advance(c), Advance(c)];
      RunFromJoins(scheme, s, first, [Advance(c), Advance(c)]);
      AbsentStays(scheme, s, c);
    } else {
      AloneItRecords(scheme, s, c, payload);
    }
  }

  lemma AbsentStays(scheme: Scheme, s: State, c: nat)
    requires c !in s.clients
    ensures RunFrom(scheme, s, [Advance(c), Advance(c)]) == s
  {
    Peel(scheme, s, Advance(c), [Advance(c)]);
    Peel(scheme, s, Advance(c), []);
    assert [Advance(c), Advance(c)] == [Advance(c)] + [Advance(c)] && [Advance(c)] == [Advance(c)] + [];
  }

  /** Under every schedule no two committed events are of one provider event and action. */
  lemma RecordedAtMostOnce(scheme: Scheme, steps: seq<Step>, i: nat, j: nat)
    requires i < j < |After(scheme, steps).log|
    ensures var log := After(scheme, steps).log; !SameProviderAction(log[i].payload, log[j].payload)
  {
    NeverForks(scheme, steps);
    var log := After(scheme, steps).log;
    KeyIs(log[i].payload, log[j].payload);
  }

  // ---------------------------------------------------------------- nobody is stuck

  /** How many more statements a transaction has to run. */
  function Left(log: Log, phase: Phase): nat {
    match phase
    case Waiting(payload) => if FindRecorded(log, payload).Some? then 3 else 5
    case Locked(payload) => if FindRecorded(log, payload).Some? then 2 else 4
    case Unrecorded(_) => 3
    case Tailed(_, _) => 2
    case Inserted(_) => 1
    case Found(_) => 1
  }

  /** It is this client's turn: it holds the lock, or waits for a free one. */
  predicate Ready(s: State, c: nat) {
    c in s.clients && (s.lock == Some(c) || s.lock == None)
  }

  predicate Records(stored: JsObject, payload: JsObject) {
    stored == payload || ProviderKey(stored) == ProviderKey(payload) != None
  }

  /** What the transaction set out to record is in the log: its own event, or an earlier
      one of the same provider event and action. */
  ghost predicate Done(log: Log, phase: Phase) {
    match phase
    case Inserted(row) => row in log
    case Found(row) => row in log
    case _ => exists e | e in log :: Records(e.payload, phase.payload)
  }

  /** The next statement of a client whose turn it is brings its transaction one
      statement nearer to the end, and the last one frees the lock. */
  lemma AdvanceNearer(scheme: Scheme, s: State, c: nat)
    requires Inv(scheme, s) && Ready(s, c)
    ensures var t := Apply(scheme, s, Advance(c));
            && Inv(scheme, t) && s.log <= t.log
            && t.clients - {c} == s.clients - {c}
            && (Left(s.log, s.clients[c]) == 1 ==> t.lock == None && c !in t.clients && Done(t.log, s.clients[c]))
            && (Left(s.log, s.clients[c]) > 1 ==>
                  && t.lock == Some(c) && c in t.clients && t.log == s.log
                  && Left(t.log, t.clients[c]) == Left(s.log, s.clients[c]) - 1)
  {
    hide Inv, FindRecorded, ComputeHash;
    AdvanceKeeps(scheme, s, c);
    PhasesFit(scheme, s, c);
  }

  lemma PhasesFit(scheme: Scheme, s: State, c: nat)
    requires Inv(scheme, s) && Ready(s, c)
    ensures s.lock == None <==> s.clients[c].Waiting?
    ensures s.clients[c].Found? ==> s.clients[c].row in s.log
  {
    hide ChainValid, IdsIncrease, RecordedOnce;
    assert PhaseHolds(scheme, s, s.clients[c]);
  }

  lemma DoneEarlier(scheme: Scheme, s: State, c: nat, log: Log)
    requires Inv(scheme, s) && Ready(s, c) && Left(s.log, s.clients[c]) > 1 && s.log <= log
    requires var t := Apply(scheme, s, Advance(c)); c in t.clients && Done(log, t.clients[c])
    ensures Done(log, s.clients[c])
  {
    hide Inv, ComputeHash;
    PhasesFit(scheme, s, c);
    match s.clients[c] {
      case Locked(payload) =>
        var recorded := FindRecorded(s.log, payload);
        if recorded.Some? {
          assert recorded.value in log;
        }
      case Tailed(payload, tail) =>
        var row := AuditEventRecord(s.nextId, payload, ComputeHash(scheme, payload, tail), tail);
        assert row in log && row.payload == payload;
      case _ =>
    }
  }

  /** A client whose turn it is, and who alone moves, comes to its end within five
      statements, four once it holds the lock: the lock is free again, nobody else is
      touched, and what it set out to record is in the log. */
  lemma {:induction false} TurnEnds(scheme: Scheme, s: State, c: nat)
    requires Inv(scheme, s) && Ready(s, c)
    ensures 1 <= Left(s.log, s.clients[c]) <= if s.lock == Some(c) then 4 else 5
    ensures var t := RunFrom(scheme, s, Advances(c, Left(s.log, s.clients[c])));
            && Inv(scheme, t) && t.lock == None && t.clients == s.clients - {c}
            && s.log <= t.log && Done(t.log, s.clients[c])
    decreases Left(s.log, s.clients[c])
  {
    hide Inv, Done, FindRecorded;
    PhasesFit(scheme, s, c);
    AdvanceNearer(scheme, s, c);
    var n := Left(s.log, s.clients[c]);
    var next := Apply(scheme, s, Advance(c));
    assert Advances(c, n) == [Advance(c)] + Advances(c, n - 1);
    Peel(scheme, s, Advance(c), Advances(c, n - 1));
    if n == 1 {
      assert next.clients - {c} == next.clients;
    } else {
      TurnEnds(scheme, next, c);
      var t := RunFrom(scheme, next, Advances(c, n - 1));
      DoneEarlier(scheme, s, c, t.log);
    }
  }

  /** These steps, of the client itself and of the holder of the lock, end the client's
      transaction and leave the lock free. */
  ghost predicate Ends(scheme: Scheme, s: State, c: nat, more: seq<Step>)
    requires c in s.clients
  {
    var t := RunFrom(scheme, s, more);
    && (forall step | step in more :: step.Advance? && (step.client == c || s.lock == Some(step.client)))
    && c !in t.clients && t.lock == None && s.log <= t.log && Done(t.log, s.clients[c])
  }

  /** Nobody is stuck: from every reachable state each open transaction can be brought to
      its end without an abort, at most nine statements away, and what it set out to
      record is then in the log. */
  lemma NobodyStuck(scheme: Scheme, steps: seq<Step>, c: nat)
    requires c in After(scheme, steps).clients
    ensures exists more :: |more| <= 9 && Ends(scheme, After(scheme, steps), c, more)
  {
    hide After, Done, Left;
    NeverForks(scheme, steps);
    var s := After(scheme, steps);
    if Ready(s, c) {
      TurnEnds(scheme, s, c);
      assert Ends(scheme, s, c, Advances(c, Left(s.log, s.clients[c])));
    } else {
      var h := s.lock.value;
      var first := Advances(h, Left(s.log, s.clients[h]));
      TurnEnds(scheme, s, h);
      var t := RunFrom(scheme, s, first);
      TurnEnds(scheme, t, c);
      var more := Advances(c, Left(t.log, t.clients[c]));
      RunFromJoins(scheme, s, first, more);
      assert Ends(scheme, s, c, first + more);
    }
  }
}
