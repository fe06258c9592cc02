/** scripts/recovery_gate.py.  First the gate object itself, then many gates interleaving at
    every file-system operation, with crashes. */
module RecoveryGates {
  import opened Wrappers

  datatype Outcome = OutcomeCompleted | OutcomeFailed | OutcomeSuppressed

  datatype Event = SuppressedEvent | AttemptedEvent | CompletedEvent(outcome: Outcome)

  /** One line of recovery-events.jsonl. */
  datatype Record = Record(event: Event, eventId: string, recordedAt: int)

  /** The state directory: the lock directory, the parsed `last_attempt_at`, the audit log.  A
      missing or unreadable time counts as absent. */
  datatype Shared = Shared(lock: bool, lastAttempt: Option<int>, log: seq<Record>)

  /** Monitor evidence; `eventId` is the reported or freshly drawn identifier. */
  datatype Evidence = Evidence(actionable: bool, eventId: string)

  datatype Decision = Decision(allowed: bool, eventId: string)

  datatype CompleteError = NotOwner | BadOutcome

  predicate CooldownActive(last: Option<int>, now: int, cooldown: int) {
    last.Some? && now - last.value < cooldown
  }

  function Audit(s: Shared, event: Event, eventId: string, now: int): Shared {
    s.(log := s.log + [Record(event, eventId, now)])
  }

  // --- one gate alone ---

  /** What an uninterrupted `evaluate` does to the directory and to `_event_id`. */
  function Evaluated(s: Shared, held: Option<string>, evidence: Evidence, now: int, cooldown: int)
    : (Shared, Option<string>, Decision)
  {
    var e := evidence.eventId;
    if !evidence.actionable || CooldownActive(s.lastAttempt, now, cooldown) || s.lock then
      (Audit(s, SuppressedEvent, e, now), held, Decision(false, e))
    else
      (Audit(s.(lock := true, lastAttempt := Some(now)), AttemptedEvent, e, now), Some(e), Decision(true, e))
  }

  /** The lock goes unless removing it fails, which the source ignores. */
  function Completed(s: Shared, e: string, outcome: Outcome, now: int, removes: bool): Shared {
    Audit(s, CompletedEvent(outcome), e, now).(lock := s.lock && !removes)
  }

  /** What `complete` does to the directory and to `_event_id`. */
  function Concluded(
      s: Shared, held: Option<string>, decided: string, outcome: Option<Outcome>, now: int, removes: bool)
    : (Shared, Option<string>, Option<CompleteError>)
  {
    if held != Some(decided) then (s, held, Some(NotOwner))
    else if outcome.None? then (s, held, Some(BadOutcome))
    else (Completed(s, decided, outcome.value, now, removes), None, None)
  }

  /** One line is appended to the log, for this event and time. */
  ghost predicate Appends(s: Shared, after: Shared, eventId: string, now: int) {
    && |after.log| == |s.log| + 1 && s.log <= after.log
    && after.log[|s.log|].eventId == eventId && after.log[|s.log|].recordedAt == now
  }

  /** The decision handed to the caller names its evidence's event and the audit line just written.
      It is an approval exactly when the monitor asks for recovery, no cooldown runs and nobody
      holds the lock; then the gate holds that event, the lock and the time, and otherwise nothing
      but the log has moved. */
  lemma DecisionIsAudited(s: Shared, held: Option<string>, evidence: Evidence, now: int, cooldown: int)
    ensures var (after, held', decision) := Evaluated(s, held, evidence, now, cooldown);
      && decision.eventId == evidence.eventId && Appends(s, after, decision.eventId, now)
      && (decision.allowed
          <==> evidence.actionable && !s.lock && (s.lastAttempt.Some? ==> now >= s.lastAttempt.value + cooldown))
      && (decision.allowed ==>
            && held' == Some(decision.eventId) && after.lock && after.lastAttempt == Some(now)
            && after.log[|s.log|].event.AttemptedEvent?)
      && (!decision.allowed ==>
            && held' == held && after.lock == s.lock && after.lastAttempt == s.lastAttempt
            && after.log[|s.log|].event.SuppressedEvent?)
  {
  }

  /** So an approved caller can always complete: with the decision just returned and a known outcome
      `complete` succeeds, answers that attempt in the log, gives the event up, and frees the lock
      unless the directory cannot be removed. */
  lemma ApprovalCompletes(
      s: Shared, held: Option<string>, evidence: Evidence, now: int, cooldown: int, outcome: Outcome, removes: bool)
    ensures var (after, held', decision) := Evaluated(s, held, evidence, now, cooldown);
      var (end, held'', error) := Concluded(after, held', decision.eventId, Some(outcome), now, removes);
      decision.allowed ==>
        && error == None && held'' == None && end.lock == !removes && end.lastAttempt == Some(now)
        && Appends(after, end, decision.eventId, now)
        && after.log[|s.log|].event == AttemptedEvent && end.log[|s.log| + 1].event == CompletedEvent(outcome)
  {
    DecisionIsAudited(s, held, evidence, now, cooldown);
  }

  class StateDirectory {
    var lock: bool
    var lastAttempt: Option<int>
    var log: seq<Record>

    constructor ()
      ensures View() == Shared(false, None, [])
    {
      lock, lastAttempt, log := false, None, [];
    }

    ghost function View(): Shared
      reads this
    {
      Shared(lock, lastAttempt, log)
    }
  }

  class RecoveryGate {
    const dir: StateDirectory
    const cooldown: int
    const now: int
    var eventId: Option<string>

    constructor (dir: StateDirectory, cooldown: int, now: int)
      ensures this.dir == dir && this.cooldown == cooldown && this.now == now && eventId == None
    {
      this.dir, this.cooldown, this.now := dir, cooldown, now;
      eventId := None;
    }

    method WriteAudit(event: Event, id: string)
      modifies dir`log
      ensures dir.View() == Audit(old(dir.View()), event, id, now)
    {
      dir.log := dir.log + [Record(event, id, now)];
    }

    method Evaluate(evidence: Evidence) returns (decision: Decision)
      modifies this, dir
      ensures (dir.View(), eventId, decision) == Evaluated(old(dir.View()), old(eventId), evidence, now, cooldown)
      ensures decision.eventId == evidence.eventId && Appends(old(dir.View()), dir.View(), decision.eventId, now)
      ensures decision.allowed ==> eventId == Some(decision.eventId) && dir.lock
    {
      decision := Decision(false, evidence.eventId);
      if !evidence.actionable {
        WriteAudit(SuppressedEvent, evidence.eventId);
        return;
      }
      var previous := dir.lastAttempt;
      if previous.Some? {
        var elapsed := now - previous.value;
        if elapsed < cooldown {
          WriteAudit(SuppressedEvent, evidence.eventId);
          return;
        }
      }
      if dir.lock {
        WriteAudit(SuppressedEvent, evidence.eventId);
        return;
      }
      dir.lock := true;
      eventId := Some(evidence.eventId);
      dir.lastAttempt := Some(now);
      decision := Decision(true, evidence.eventId);
      WriteAudit(AttemptedEvent, evidence.eventId);
    }

    /** `outcome` is absent when the caller's text names none of the three outcomes; `removes` says
        whether the file system lets the lock directory go. */
    method Complete(decision: Decision, outcome: Option<Outcome>, removes: bool) returns (error: Option<CompleteError>)
      modifies this, dir
      ensures (dir.View(), eventId, error)
           == Concluded(old(dir.View()), old(eventId), decision.eventId, outcome, now, removes)
      ensures old(eventId) != Some(decision.eventId) ==> error == Some(NotOwner)
      ensures old(eventId) == Some(decision.eventId) && outcome.None? ==> error == Some(BadOutcome)
      ensures error.Some? ==> dir.View() == old(dir.View()) && eventId == old(eventId)
      ensures error.None? ==>
        && old(eventId) == Some(decision.eventId) && outcome.Some? && eventId == None
        && Appends(old(dir.View()), dir.View(), decision.eventId, now)
        && dir.log[|dir.log| - 1].event == CompletedEvent(outcome.value) && dir.lastAttempt == old(dir.lastAttempt)
        && dir.lock == (old(dir.lock) && !removes)
    {
      if eventId != Some(decision.eventId) {
        return Some(NotOwner);
      }
      if outcome.None? {
        return Some(BadOutcome);
      }
      WriteAudit(CompletedEvent(outcome.value), decision.eventId);
      if removes {
        dir.lock := false;
      }
      eventId := None;
      error := None;
    }
  }

  // --- many gates, interleaved ---

  /** Where a gate's process stands; the arguments are what it carries to its next operation. */
  datatype Phase =
    | Ready
    | Checked(eventId: string, read: Option<int>)  // passed the cooldown check, about to mkdir
    | Locked(eventId: string)    // lock taken, about to write the state file
    | Written(eventId: string)   // state written, about to audit "attempted"
    | Closing(eventId: string)   // "completed" audited, about to rmdir
    | Dead

  /** `held` is `_event_id`. */
  datatype Gate = Gate(now: int, cooldown: int, held: Option<string>, phase: Phase)

  datatype System = System(shared: Shared, gates: seq<Gate>)

  datatype Action =
    | Read(g: nat, evidence: Evidence)
    | Mkdir(g: nat)
    | WriteState(g: nat)
    | AuditAttempt(g: nat)
    | AuditComplete(g: nat, decided: string, outcome: Option<Outcome>)
    | Rmdir(g: nat, removes: bool)
    | Crash(g: nat)

  function Put(s: System, g: nat, shared: Shared, gate: Gate): System
    requires g < |s.gates|
  {
    System(shared, s.gates[g := gate])
  }

  /** One operation of one gate; an operation that is not due changes nothing. */
  function Effect(sh: Shared, gate: Gate, a: Action): (Shared, Gate) {
    match a
    case Read(_, evidence) =>
      if gate.phase != Ready then (sh, gate)
      else if !evidence.actionable || CooldownActive(sh.lastAttempt, gate.now, gate.cooldown) then
        (Audit(sh, SuppressedEvent, evidence.eventId, gate.now), gate)
      else (sh, gate.(phase := Checked(evidence.eventId, sh.lastAttempt)))
    case Mkdir(_) =>
      if !gate.phase.Checked? then (sh, gate)
      else if sh.lock then
        (Audit(sh, SuppressedEvent, gate.phase.eventId, gate.now), gate.(phase := Ready))
      else
        (sh.(lock := true), gate.(phase := Locked(gate.phase.eventId), held := Some(gate.phase.eventId)))
    case WriteState(_) =>
      if !gate.phase.Locked? then (sh, gate)
      else (sh.(lastAttempt := Some(gate.now)), gate.(phase := Written(gate.phase.eventId)))
    case AuditAttempt(_) =>
      if !gate.phase.Written? then (sh, gate)
      else (Audit(sh, AttemptedEvent, gate.phase.eventId, gate.now), gate.(phase := Ready))
    case AuditComplete(_, decided, outcome) =>
      if gate.phase != Ready || gate.held != Some(decided) || outcome.None? then (sh, gate)
      else (Audit(sh, CompletedEvent(outcome.value), decided, gate.now), gate.(phase := Closing(decided)))
    case Rmdir(_, removes) =>
      if !gate.phase.Closing? then (sh, gate)
      else (sh.(lock := sh.lock && !removes), gate.(phase := Ready, held := None))
    case Crash(_) =>
      (sh, gate.(phase := Dead, held := None))
  }

  function Step(s: System, a: Action): System {
    if a.g >= |s.gates| then s
    else
      var (shared, gate) := Effect(s.shared, s.gates[a.g], a);
      Put(s, a.g, shared, gate)
  }

  function Run(s: System, actions: seq<Action>): System
    decreases |actions|
  {
    if actions == [] then s else Run(Step(s, actions[0]), actions[1..])
  }

  ghost predicate Initial(s: System) {
    && !s.shared.lock && s.shared.log == []
    && forall g | 0 <= g < |s.gates| :: s.gates[g].phase == Ready && s.gates[g].held == None
  }

  // --- safety ---

  predicate OnProtocol(r: Record) {
    !r.event.SuppressedEvent?
  }

  /** The attempted/completed records. */
  function Protocol(log: seq<Record>): seq<Record> {
    if log == [] then []
    else Protocol(log[..|log| - 1]) + if OnProtocol(log[|log| - 1]) then [log[|log| - 1]] else []
  }

  ghost predicate Answers(p: seq<Record>, i: nat)
    requires i < |p|
  {
    i > 0 && p[i].event.CompletedEvent? && p[i].eventId == p[i - 1].eventId
  }

  /** attempted, completed, attempted, ... with each completed naming the attempt before it. */
  ghost predicate Alternates(p: seq<Record>) {
    forall i | 0 <= i < |p| ::
      if i % 2 == 0 then p[i].event.AttemptedEvent? else Answers(p, i)
  }

  ghost predicate Closed(p: seq<Record>) {
    |p| % 2 == 0
  }

  ghost predicate OpenFor(p: seq<Record>, e: string) {
    |p| % 2 == 1 && p[|p| - 1].eventId == e
  }

  ghost predicate ClosedFor(p: seq<Record>, e: string) {
    Closed(p) && p != [] && p[|p| - 1].event.CompletedEvent? && p[|p| - 1].eventId == e
  }

  /** What the audit log says when this gate holds the lock. */
  ghost predicate HolderAgrees(gate: Gate, p: seq<Record>)
    requires gate.held.Some?
  {
    match gate.phase
    case Locked(e) => gate.held == Some(e) && Closed(p)
    case Written(e) => gate.held == Some(e) && Closed(p)
    case Closing(e) => gate.held == Some(e) && ClosedFor(p, e)
    case Dead => false
    case _ => OpenFor(p, gate.held.value)
  }

  /** The audit log alternates, and without a lock every attempt is closed. */
  ghost predicate LogOk(sh: Shared) {
    Alternates(Protocol(sh.log)) && (!sh.lock ==> Closed(Protocol(sh.log)))
  }

  ghost predicate GateOk(sh: Shared, gate: Gate) {
    if gate.held.Some? then sh.lock && HolderAgrees(gate, Protocol(sh.log))
    else gate.phase.Ready? || gate.phase.Checked? || gate.phase.Dead?
  }

  ghost predicate Invariant(s: System) {
    && LogOk(s.shared)
    && (forall g | 0 <= g < |s.gates| :: GateOk(s.shared, s.gates[g]))
    && (forall g, h | 0 <= g < h < |s.gates| :: s.gates[g].held.None? || s.gates[h].held.None?)
  }

  lemma ProtocolSnoc(log: seq<Record>, r: Record)
    ensures Protocol(log + [r]) == if OnProtocol(r) then Protocol(log) + [r] else Protocol(log)
  {
    assert (log + [r])[..|log|] == log;
  }

  lemma InitialHolds(s: System)
    requires Initial(s)
    ensures Invariant(s)
  {
  }

  lemma AlternatesSnoc(p: seq<Record>, r: Record)
    requires Alternates(p)
    requires if Closed(p) then r.event.AttemptedEvent? else r.event.CompletedEvent? && OpenFor(p, r.eventId)
    ensures Alternates(p + [r])
  {
    forall i | 0 <= i < |p| && i % 2 != 0 ensures Answers(p + [r], i) {
      assert Answers(p, i);
    }
  }

  /** The attempted or completed record that an operation writes, if any. */
  function Recorded(gate: Gate, a: Action): seq<Record> {
    if a.AuditAttempt? && gate.phase.Written? then [Record(AttemptedEvent, gate.phase.eventId, gate.now)]
    else if a.AuditComplete? && gate.phase == Ready && gate.held == Some(a.decided) && a.outcome.Some? then
      [Record(CompletedEvent(a.outcome.value), a.decided, gate.now)]
    else []
  }

  lemma ProtocolAfter(sh: Shared, gate: Gate, a: Action)
    ensures Protocol(Effect(sh, gate, a).0.log) == Protocol(sh.log) + Recorded(gate, a)
  {
    var after := Effect(sh, gate, a).0;
    if |after.log| > |sh.log| {
      ProtocolSnoc(sh.log, after.log[|sh.log|]);
    }
    assert Protocol(sh.log) + [] == Protocol(sh.log);
  }

  lemma RecordFits(sh: Shared, gate: Gate, a: Action)
    requires LogOk(sh) && GateOk(sh, gate) && Recorded(gate, a) != []
    ensures Alternates(Protocol(sh.log) + [Recorded(gate, a)[0]])
  {
    AlternatesSnoc(Protocol(sh.log), Recorded(gate, a)[0]);
  }

  lemma RecordTurns(p: seq<Record>, r: Record)
    ensures Closed(p) && r.event.AttemptedEvent? ==> OpenFor(p + [r], r.eventId)
    ensures OpenFor(p, r.eventId) && r.event.CompletedEvent? ==> ClosedFor(p + [r], r.eventId)
    ensures forall e :: ClosedFor(p, e) ==> Closed(p)
    ensures forall e :: OpenFor(p, e) ==> !Closed(p)
  {
  }

  /** A gate keeps the log and itself in order, and a gate that does not hold an existing lock
      leaves the lock and the protocol records alone. */
  lemma EffectKeeps(sh: Shared, gate: Gate, a: Action)
    requires LogOk(sh) && GateOk(sh, gate)
    ensures var (sh', gate') := Effect(sh, gate, a);
      && LogOk(sh') && GateOk(sh', gate')
      && (gate.held.None? && sh.lock ==> sh'.lock && Protocol(sh'.log) == Protocol(sh.log) && gate'.held.None?)
  {
    hide Protocol, Alternates, Closed, OpenFor, ClosedFor;
    ProtocolAfter(sh, gate, a);
    var p, records := Protocol(sh.log), Recorded(gate, a);
    if records != [] {
      RecordFits(sh, gate, a);
      RecordTurns(p, records[0]);
      assert records == [records[0]];
    } else {
      assert p + [] == p;
      RecordTurns(p, Record(SuppressedEvent, "", 0));
    }
  }

  /** Another gate's step leaves a gate in order, and at most one of the two holds the lock. */
  lemma OtherKeeps(sh: Shared, gate: Gate, a: Action, other: Gate)
    requires LogOk(sh) && GateOk(sh, gate) && GateOk(sh, other) && (gate.held.None? || other.held.None?)
    ensures var (sh', gate') := Effect(sh, gate, a);
      GateOk(sh', other) && (gate'.held.None? || other.held.None?)
  {
    EffectKeeps(sh, gate, a);
    hide Effect, Protocol, HolderAgrees, LogOk;
  }

  lemma StepKeepsInvariant(s: System, a: Action)
    requires Invariant(s)
    ensures Invariant(Step(s, a))
  {
    if a.g < |s.gates| {
      EffectKeeps(s.shared, s.gates[a.g], a);
      var (sh', gate') := Effect(s.shared, s.gates[a.g], a);
      var gates' := s.gates[a.g := gate'];
      assert Step(s, a) == System(sh', gates');
      hide Effect, GateOk, LogOk, Step;
      forall h | 0 <= h < |s.gates| && h != a.g
        ensures GateOk(sh', s.gates[h]) && (gate'.held.None? || s.gates[h].held.None?)
      {
        OtherKeeps(s.shared, s.gates[a.g], a, s.gates[h]);
      }
      forall h | 0 <= h < |gates'| ensures GateOk(sh', gates'[h]) {
        assert gates'[h] == if h == a.g then gate' else s.gates[h];
      }
    }
  }

  lemma {:induction false} RunKeepsInvariant(s: System, actions: seq<Action>)
    requires Invariant(s)
    ensures Invariant(Run(s, actions))
    decreases |actions|
  {
    if actions != [] {
      StepKeepsInvariant(s, actions[0]);
      RunKeepsInvariant(Step(s, actions[0]), actions[1..]);
    }
  }

  /** In every interleaving, crashes included: one owner at most, an owner implies the lock, and
      attempted/completed records strictly alternate with matching events. */
  lemma GateSafety(s: System, actions: seq<Action>, g: nat, h: nat)
    requires Initial(s) && g < |Run(s, actions).gates| && h < |Run(s, actions).gates|
    ensures var t := Run(s, actions);
      && (t.gates[g].held.Some? && t.gates[h].held.Some? ==> g == h)
      && (t.gates[g].held.Some? ==> t.shared.lock)
      && Alternates(Protocol(t.shared.log))
  {
    InitialHolds(s);
    RunKeepsInvariant(s, actions);
  }

  /** Only the owner, and only after its "completed" record, removes the lock. */
  lemma OnlyOwnerReleases(s: System, a: Action)
    requires Invariant(s) && s.shared.lock && !Step(s, a).shared.lock
    ensures a.Rmdir? && a.removes && a.g < |s.gates| && s.gates[a.g].held.Some?
    ensures ClosedFor(Protocol(s.shared.log), s.gates[a.g].held.value)
    ensures Step(s, a).gates[a.g].held.None?
  {
    assert s.gates[a.g].held.Some?;
  }

  /** A lock without an owner, left by a crash or by a removal that failed, stays: from then on no
      gate ever attempts again. */
  lemma {:induction false} OwnerlessLockBlocksForever(s: System, actions: seq<Action>)
    requires Invariant(s) && s.shared.lock && forall g | 0 <= g < |s.gates| :: s.gates[g].held.None?
    ensures var t := Run(s, actions);
      && t.shared.lock && Protocol(t.shared.log) == Protocol(s.shared.log)
      && forall g | 0 <= g < |t.gates| :: t.gates[g].held.None?
    decreases |actions|
  {
    if actions != [] {
      var a := actions[0];
      if a.g < |s.gates| { EffectKeeps(s.shared, s.gates[a.g], a); }
      StepKeepsInvariant(s, a);
      OwnerlessLockBlocksForever(Step(s, a), actions[1..]);
    }
  }

  lemma {:induction false} OthersLeaveAlone(s: System, g: nat, actions: seq<Action>)
    requires g < |s.gates| && forall i | 0 <= i < |actions| :: actions[i].g != g
    ensures |Run(s, actions).gates| == |s.gates| && Run(s, actions).gates[g] == s.gates[g]
    decreases |actions|
  {
    if actions != [] {
      hide Effect;
      OthersLeaveAlone(Step(s, actions[0]), g, actions[1..]);
    }
  }

  /** Whatever other gates do in between, crashes included, a gate that was approved for an event can
      complete it: its "completed" line directly answers its own attempt, and removing the directory
      frees the lock. */
  lemma ApprovedCanComplete(s: System, g: nat, e: string, others: seq<Action>, outcome: Outcome)
    requires Invariant(s) && g < |s.gates| && s.gates[g].phase == Ready && s.gates[g].held == Some(e)
    requires forall i | 0 <= i < |others| :: others[i].g != g
    ensures var t := Run(s, others);
      var audited := Step(t, AuditComplete(g, e, Some(outcome)));
      var p := Protocol(t.shared.log);
      && t.shared.lock && OpenFor(p, e)
      && Protocol(audited.shared.log) == p + [Record(CompletedEvent(outcome), e, s.gates[g].now)]
      && !Step(audited, Rmdir(g, true)).shared.lock && Step(audited, Rmdir(g, true)).gates[g].held == None
  {
    OthersLeaveAlone(s, g, others);
    RunKeepsInvariant(s, others);
    var t, a := Run(s, others), AuditComplete(g, e, Some(outcome));
    assert GateOk(t.shared, t.gates[g]);
    ProtocolAfter(t.shared, t.gates[g], a);
    hide Run, Protocol, Invariant;
  }

  // --- cooldown ---

  /** The operations of one uninterrupted `evaluate`. */
  function EvaluateActions(g: nat, evidence: Evidence): seq<Action> {
    [Read(g, evidence), Mkdir(g), WriteState(g), AuditAttempt(g)]
  }

  lemma {:induction false} RunAppends(s: System, a: seq<Action>, b: seq<Action>)
    ensures Run(s, a + b) == Run(Run(s, a), b)
    decreases |a|
  {
    if a == [] {
      assert a + b == b;
    } else {
      assert (a + b)[1..] == a[1..] + b;
      RunAppends(Step(s, a[0]), a[1..], b);
    }
  }

  lemma RunOne(s: System, a: Action)
    ensures Run(s, [a]) == Step(s, a)
  {
    assert Run(Step(s, a), [a][1..]) == Step(s, a);
  }

  lemma RunFour(s: System, a: Action, b: Action, c: Action, d: Action)
    ensures Run(s, [a, b, c, d]) == Step(Step(Step(Step(s, a), b), c), d)
  {
    RunOne(s, a);
    RunOne(Step(s, a), b);
    RunOne(Step(Step(s, a), b), c);
    RunOne(Step(Step(Step(s, a), b), c), d);
    RunAppends(s, [a], [b]);
    RunAppends(s, [a] + [b], [c]);
    RunAppends(s, [a] + [b] + [c], [d]);
    assert [a, b, c, d] == [a] + [b] + [c] + [d];
  }

  /** The gate object and the step machine agree: running the four operations without
      interruption is `Evaluate`. */
  lemma EvaluateRefinesSteps(s: System, g: nat, evidence: Evidence)
    requires g < |s.gates| && s.gates[g].phase == Ready
    ensures var gate := s.gates[g];
      var (shared, held, decision) := Evaluated(s.shared, gate.held, evidence, gate.now, gate.cooldown);
      Run(s, EvaluateActions(g, evidence)) == Put(s, g, shared, gate.(held := held))
  {
    var gate := s.gates[g];
    var (shared, held, decision) := Evaluated(s.shared, gate.held, evidence, gate.now, gate.cooldown);
    RunFour(s, Read(g, evidence), Mkdir(g), WriteState(g), AuditAttempt(g));
    assert Run(s, EvaluateActions(g, evidence)).gates == s.gates[g := s.gates[g].(held := held)];
  }

  /** Whole calls, each taken without interruption. */
  datatype Call =
    | Evaluate(g: nat, evidence: Evidence)
    | Complete(g: nat, decided: string, outcome: Option<Outcome>, removes: bool)
    | Kill(g: nat)

  function Perform(s: System, c: Call): System {
    match c
    case Evaluate(g, evidence) => Run(s, EvaluateActions(g, evidence))
    case Complete(g, decided, outcome, removes) => Step(Step(s, AuditComplete(g, decided, outcome)), Rmdir(g, removes))
    case Kill(g) => Step(s, Crash(g))
  }

  function PerformAll(s: System, calls: seq<Call>): System {
    if calls == [] then s else Perform(PerformAll(s, calls[..|calls| - 1]), calls[|calls| - 1])
  }

  /** Times of the attempted records, in order. */
  function AttemptTimes(log: seq<Record>): seq<int> {
    if log == [] then []
    else
      var last := log[|log| - 1];
      AttemptTimes(log[..|log| - 1]) + if last.event.AttemptedEvent? then [last.recordedAt] else []
  }

  /** An audited attempt: its recorded time and the cooldown of the gate that made it. */
  datatype Attempt = Attempt(at: int, cooldown: int)

  function Times(attempts: seq<Attempt>): seq<int> {
    seq(|attempts|, k requires 0 <= k < |attempts| => attempts[k].at)
  }

  /** Every attempt comes at least its own gate's cooldown after the one before. */
  ghost predicate Spaced(attempts: seq<Attempt>) {
    forall i | 0 < i < |attempts| :: attempts[i].at - attempts[i - 1].at >= attempts[i].cooldown
  }

  lemma SpacedSnoc(attempts: seq<Attempt>, next: Attempt)
    ensures Times(attempts + [next]) == Times(attempts) + [next.at]
    ensures Spaced(attempts + [next])
       <==> && Spaced(attempts)
            && !(attempts != [] && next.at - attempts[|attempts| - 1].at < next.cooldown)
  {
    var all := attempts + [next];
    if Spaced(all) {
      forall i | 0 < i < |attempts| ensures attempts[i].at - attempts[i - 1].at >= attempts[i].cooldown {
        assert all[i].at - all[i - 1].at >= all[i].cooldown;
      }
      assert attempts != [] ==> all[|attempts|].at - all[|attempts| - 1].at >= all[|attempts|].cooldown;
    }
  }

  /** The attempt that a whole call audits, if any. */
  function AttemptIn(s: System, c: Call): seq<Attempt> {
    if c.Evaluate? && c.g < |s.gates| && s.gates[c.g].phase == Ready then
      var gate := s.gates[c.g];
      if Evaluated(s.shared, gate.held, c.evidence, gate.now, gate.cooldown).2.allowed
      then [Attempt(gate.now, gate.cooldown)] else []
    else []
  }

  function AttemptsIn(s: System, calls: seq<Call>): seq<Attempt> {
    if calls == [] then []
    else
      var front := calls[..|calls| - 1];
      AttemptsIn(s, front) + AttemptIn(PerformAll(s, front), calls[|calls| - 1])
  }

  /** The log records these attempts, they are spaced, and the state file holds the last one's time. */
  ghost predicate SpacedLog(shared: Shared, attempts: seq<Attempt>) {
    && AttemptTimes(shared.log) == Times(attempts) && Spaced(attempts)
    && (attempts != [] ==> shared.lastAttempt == Some(attempts[|attempts| - 1].at))
  }

  ghost predicate Settled(s: System, attempts: seq<Attempt>) {
    && (forall g | 0 <= g < |s.gates| :: s.gates[g].phase == Ready || s.gates[g].phase == Dead)
    && SpacedLog(s.shared, attempts)
  }

  lemma AttemptTimesSnoc(log: seq<Record>, r: Record)
    ensures AttemptTimes(log + [r])
         == if r.event.AttemptedEvent? then AttemptTimes(log) + [r.recordedAt] else AttemptTimes(log)
  {
    assert (log + [r])[..|log|] == log;
  }

  lemma EvaluatedSpaced(
      shared: Shared, attempts: seq<Attempt>, held: Option<string>, evidence: Evidence, now: int, cooldown: int)
    requires SpacedLog(shared, attempts)
    ensures var (after, _, decision) := Evaluated(shared, held, evidence, now, cooldown);
      SpacedLog(after, attempts + if decision.allowed then [Attempt(now, cooldown)] else [])
  {
    AttemptTimesSnoc(shared.log, Record(SuppressedEvent, evidence.eventId, now));
    AttemptTimesSnoc(shared.log, Record(AttemptedEvent, evidence.eventId, now));
    SpacedSnoc(attempts, Attempt(now, cooldown));
    hide AttemptTimes, Times, Spaced;
    assert attempts + [] == attempts;
  }

  lemma EvaluateSettled(s: System, attempts: seq<Attempt>, g: nat, evidence: Evidence)
    requires Settled(s, attempts)
    ensures Settled(Perform(s, Evaluate(g, evidence)), attempts + AttemptIn(s, Evaluate(g, evidence)))
  {
    if g < |s.gates| && s.gates[g].phase == Ready {
      EvaluateRefinesSteps(s, g, evidence);
      EvaluatedSpaced(s.shared, attempts, s.gates[g].held, evidence, s.gates[g].now, s.gates[g].cooldown);
      hide Run, EvaluateActions, Evaluated, SpacedLog;
    } else {
      RunFour(s, Read(g, evidence), Mkdir(g), WriteState(g), AuditAttempt(g));
      assert attempts + [] == attempts;
      hide Run, SpacedLog;
    }
  }

  lemma CompleteSettled(
      s: System, attempts: seq<Attempt>, g: nat, decided: string, outcome: Option<Outcome>, removes: bool)
    requires Settled(s, attempts)
    ensures Settled(Perform(s, Complete(g, decided, outcome, removes)), attempts)
  {
    var after := Perform(s, Complete(g, decided, outcome, removes));
    if g < |s.gates| && s.gates[g].phase == Ready && s.gates[g].held == Some(decided) && outcome.Some? {
      var record := Record(CompletedEvent(outcome.value), decided, s.gates[g].now);
      AttemptTimesSnoc(s.shared.log, record);
      assert after.shared.log == s.shared.log + [record] && after.shared.lastAttempt == s.shared.lastAttempt;
      assert after.gates == s.gates[g := s.gates[g].(held := None)];
    } else {
      assert after.shared == s.shared && after.gates == s.gates;
    }
    hide AttemptTimes, Spaced, Perform, Step;
  }

  lemma PerformSettled(s: System, attempts: seq<Attempt>, c: Call)
    requires Settled(s, attempts)
    ensures Settled(Perform(s, c), attempts + AttemptIn(s, c))
  {
    match c
    case Evaluate(g, evidence) => EvaluateSettled(s, attempts, g, evidence);
    case Complete(g, decided, outcome, removes) =>
      CompleteSettled(s, attempts, g, decided, outcome, removes);
      assert attempts + [] == attempts;
    case Kill(_) =>
      assert attempts + [] == attempts;
      hide AttemptTimes, Spaced;
  }

  /** With whole calls of gates with any cooldowns, every recorded attempt comes at least its own
      gate's cooldown after the one recorded before. */
  lemma {:induction false} AttemptsKeepCooldown(s: System, calls: seq<Call>)
    requires Initial(s)
    ensures Settled(PerformAll(s, calls), AttemptsIn(s, calls))
    ensures AttemptTimes(PerformAll(s, calls).shared.log) == Times(AttemptsIn(s, calls)) && Spaced(AttemptsIn(s, calls))
  {
    if calls != [] {
      AttemptsKeepCooldown(s, calls[..|calls| - 1]);
      PerformSettled(PerformAll(s, calls[..|calls| - 1]), AttemptsIn(s, calls[..|calls| - 1]), calls[|calls| - 1]);
    }
  }

  // --- cooldown over every interleaving ---

  /** A gate passes the cooldown check. */
  predicate Passes(sh: Shared, gate: Gate, a: Action) {
    && a.Read? && gate.phase == Ready && a.evidence.actionable
    && !CooldownActive(sh.lastAttempt, gate.now, gate.cooldown)
  }

  predicate Takes(sh: Shared, gate: Gate, a: Action) {
    a.Mkdir? && gate.phase.Checked? && !sh.lock
  }

  predicate Rewrites(gate: Gate, a: Action) {
    a.WriteState? && gate.phase.Locked?
  }

  predicate Attempts(gate: Gate, a: Action) {
    a.AuditAttempt? && gate.phase.Written?
  }

  /** What a run says about one gate: whether any gate wrote the state file, whether one did since
      this gate last passed its check, and whether this gate then took its lock less than a
      cooldown after the time it would have found there. */
  datatype Story = Story(written: bool, rewritten: bool, late: bool)

  function Told(story: Story, sh: Shared, gate: Gate, a: Action, mine: bool): Story {
    if Rewrites(gate, a) then story.(written := true, rewritten := true)
    else if mine && Passes(sh, gate, a) then story.(rewritten := false)
    else if mine && Takes(sh, gate, a) then
      story.(late := story.rewritten && CooldownActive(sh.lastAttempt, gate.now, gate.cooldown))
    else story
  }

  function StoryOf(s: System, actions: seq<Action>, g: nat): Story {
    if actions == [] then Story(false, false, false)
    else
      var front, a := actions[..|actions| - 1], actions[|actions| - 1];
      var story, t := StoryOf(s, front, g), Run(s, front);
      if a.g < |t.gates| then Told(story, t.shared, t.gates[a.g], a, a.g == g) else story
  }

  /** Step `n` audits an attempt whose lock was taken late. */
  ghost predicate LateAttempt(s: System, actions: seq<Action>, n: nat)
    requires n < |actions|
  {
    var t, a := Run(s, actions[..n]), actions[n];
    a.g < |t.gates| && Attempts(t.gates[a.g], a) && StoryOf(s, actions[..n], a.g).late
  }

  ghost predicate SomeLateAttempt(s: System, actions: seq<Action>) {
    exists n: nat | n < |actions| :: LateAttempt(s, actions, n)
  }

  /** The state file holds the time of the last attempt, and was written only for attempts. */
  ghost predicate Linked(sh: Shared, written: bool) {
    var times := AttemptTimes(sh.log);
    (written <==> times != []) && (times != [] ==> sh.lastAttempt == Some(times[|times| - 1]))
  }

  ghost predicate TooSoon(sh: Shared, now: int, cooldown: int) {
    var times := AttemptTimes(sh.log);
    times != [] && now - times[|times| - 1] < cooldown
  }

  /** The audited attempts of a run, in order. */
  function AttemptsOf(s: System, actions: seq<Action>): seq<Attempt> {
    if actions == [] then []
    else
      var front, a := actions[..|actions| - 1], actions[|actions| - 1];
      var t := Run(s, front);
      AttemptsOf(s, front)
      + if a.g < |t.gates| && Attempts(t.gates[a.g], a) then [Attempt(t.gates[a.g].now, t.gates[a.g].cooldown)] else []
  }

  /** What a gate's story tells about the audit log. */
  ghost predicate Tells(sh: Shared, gate: Gate, story: Story) {
    && (story.rewritten ==> story.written)
    && (!sh.lock || (gate.held.Some? && !gate.phase.Written?) ==> Linked(sh, story.written))
    && match gate.phase
       case Checked(_, read) =>
         !CooldownActive(read, gate.now, gate.cooldown) && (!story.rewritten ==> sh.lastAttempt == read)
       case Locked(_) => story.late <==> TooSoon(sh, gate.now, gate.cooldown)
       case Written(_) =>
         && sh.lastAttempt == Some(gate.now) && story.written
         && (story.late <==> TooSoon(sh, gate.now, gate.cooldown))
       case _ => true
  }

  lemma TimesAfter(sh: Shared, gate: Gate, a: Action)
    ensures AttemptTimes(Effect(sh, gate, a).0.log)
         == AttemptTimes(sh.log) + if Attempts(gate, a) then [gate.now] else []
  {
    var after := Effect(sh, gate, a).0;
    if |after.log| > |sh.log| {
      AttemptTimesSnoc(sh.log, after.log[|sh.log|]);
    }
    assert AttemptTimes(sh.log) + [] == AttemptTimes(sh.log);
  }

  lemma ActorTells(sh: Shared, gate: Gate, a: Action, story: Story)
    requires GateOk(sh, gate) && Tells(sh, gate, story)
    ensures Tells(Effect(sh, gate, a).0, Effect(sh, gate, a).1, Told(story, sh, gate, a, true))
  {
    TimesAfter(sh, gate, a);
    hide AttemptTimes, HolderAgrees;
  }

  /** A step of one gate seen from another: at most one of the two holds the lock. */
  lemma OthersTell(sh: Shared, gate: Gate, a: Action, mine: Story, other: Gate, story: Story)
    requires GateOk(sh, gate) && GateOk(sh, other) && (gate.held.None? || other.held.None?)
    requires Tells(sh, gate, mine) && Tells(sh, other, story) && mine.written == story.written
    ensures Tells(Effect(sh, gate, a).0, other, Told(story, sh, gate, a, false))
  {
    TimesAfter(sh, gate, a);
    hide AttemptTimes, HolderAgrees;
  }

  lemma RunSnoc(s: System, actions: seq<Action>)
    requires actions != []
    ensures Run(s, actions) == Step(Run(s, actions[..|actions| - 1]), actions[|actions| - 1])
  {
    var front, a := actions[..|actions| - 1], actions[|actions| - 1];
    assert actions == front + [a];
    RunAppends(s, front, [a]);
    RunOne(Run(s, front), a);
  }

  /** All gates agree on whether the state file was written. */
  lemma {:induction false} WrittenAgrees(s: System, actions: seq<Action>, g: nat, h: nat)
    ensures StoryOf(s, actions, g).written == StoryOf(s, actions, h).written
  {
    if actions != [] {
      WrittenAgrees(s, actions[..|actions| - 1], g, h);
    }
  }

  lemma {:induction false} RunTells(s: System, actions: seq<Action>)
    requires Initial(s)
    ensures var t := Run(s, actions);
      && Invariant(t) && AttemptTimes(t.shared.log) == Times(AttemptsOf(s, actions))
      && forall g | 0 <= g < |t.gates| :: Tells(t.shared, t.gates[g], StoryOf(s, actions, g))
  {
    InitialHolds(s);
    RunKeepsInvariant(s, actions);
    if actions != [] {
      var front, a := actions[..|actions| - 1], actions[|actions| - 1];
      RunTells(s, front);
      RunSnoc(s, actions);
      AttemptsNext(s, actions);
      var t := Run(s, front);
      hide Run, Tells, GateOk, LogOk, Effect, Told, AttemptsOf, AttemptTimes, Times;
      if a.g < |t.gates| {
        ActorTells(t.shared, t.gates[a.g], a, StoryOf(s, front, a.g));
        forall h | 0 <= h < |t.gates| && h != a.g
          ensures Tells(Effect(t.shared, t.gates[a.g], a).0, t.gates[h],
                        Told(StoryOf(s, front, h), t.shared, t.gates[a.g], a, false))
        {
          WrittenAgrees(s, front, a.g, h);
          OthersTell(t.shared, t.gates[a.g], a, StoryOf(s, front, a.g), t.gates[h], StoryOf(s, front, h));
        }
      }
    }
  }

  lemma AttemptsNext(s: System, actions: seq<Action>)
    requires actions != []
    requires var front := actions[..|actions| - 1];
      AttemptTimes(Run(s, front).shared.log) == Times(AttemptsOf(s, front))
    ensures AttemptTimes(Run(s, actions).shared.log) == Times(AttemptsOf(s, actions))
  {
    var front, a := actions[..|actions| - 1], actions[|actions| - 1];
    var t := Run(s, front);
    RunSnoc(s, actions);
    hide Run, Effect, AttemptTimes;
    if a.g < |t.gates| {
      TimesAfter(t.shared, t.gates[a.g], a);
      SpacedSnoc(AttemptsOf(s, front), Attempt(t.gates[a.g].now, t.gates[a.g].cooldown));
    }
    assert AttemptsOf(s, front) + [] == AttemptsOf(s, front);
    assert AttemptTimes(t.shared.log) + [] == AttemptTimes(t.shared.log);
  }

  lemma LateSnoc(s: System, actions: seq<Action>)
    requires actions != []
    ensures SomeLateAttempt(s, actions)
       <==> SomeLateAttempt(s, actions[..|actions| - 1]) || LateAttempt(s, actions, |actions| - 1)
  {
    var front := actions[..|actions| - 1];
    forall n: nat | n < |front| ensures LateAttempt(s, front, n) <==> LateAttempt(s, actions, n) {
      assert front[..n] == actions[..n];
    }
  }

  /** Over every run, crashes and failed removals included, of gates with any cooldowns: some attempt
      is recorded less than its own gate's cooldown after the one before exactly when some audited
      attempt took its lock although the state file had been rewritten, after that gate's check,
      with a time less than that cooldown ago. */
  lemma {:induction false} CooldownBrokenExactly(s: System, actions: seq<Action>)
    requires Initial(s)
    ensures AttemptTimes(Run(s, actions).shared.log) == Times(AttemptsOf(s, actions))
    ensures !Spaced(AttemptsOf(s, actions)) <==> SomeLateAttempt(s, actions)
  {
    RunTells(s, actions);
    if actions != [] {
      var front, a := actions[..|actions| - 1], actions[|actions| - 1];
      CooldownBrokenExactly(s, front);
      RunTells(s, front);
      LateSnoc(s, actions);
      AttemptBreaks(s, actions);
      hide SomeLateAttempt, Spaced, AttemptsOf, Run, StoryOf, Invariant, Initial, Tells, AttemptTimes;
      assert actions[..|actions| - 1] == front;
    }
  }

  lemma AttemptBreaks(s: System, actions: seq<Action>)
    requires actions != []
    requires var front, a := actions[..|actions| - 1], actions[|actions| - 1]; var t := Run(s, front);
      && AttemptTimes(t.shared.log) == Times(AttemptsOf(s, front))
      && (a.g < |t.gates| ==> Tells(t.shared, t.gates[a.g], StoryOf(s, front, a.g)))
    ensures Spaced(AttemptsOf(s, actions))
       <==> Spaced(AttemptsOf(s, actions[..|actions| - 1])) && !LateAttempt(s, actions, |actions| - 1)
  {
    var front, a := actions[..|actions| - 1], actions[|actions| - 1];
    var t, attempts := Run(s, front), AttemptsOf(s, front);
    assert actions[..|actions| - 1] == front && attempts + [] == attempts;
    hide Run, AttemptTimes, StoryOf, Linked;
    if a.g < |t.gates| && Attempts(t.gates[a.g], a) {
      SpacedSnoc(attempts, Attempt(t.gates[a.g].now, t.gates[a.g].cooldown));
      assert attempts != [] ==> Times(attempts)[|attempts| - 1] == attempts[|attempts| - 1].at;
    }
    hide Spaced;
  }

  /** In particular, when every lock is taken with the state file as the gate read it, attempts
      keep the cooldown. */
  lemma UnchangedReadsKeepCooldown(s: System, actions: seq<Action>)
    requires Initial(s) && forall n: nat | n < |actions| :: ReadStands(Run(s, actions[..n]), actions[n])
    ensures Spaced(AttemptsOf(s, actions))
  {
    CooldownBrokenExactly(s, actions);
    if n: nat :| n < |actions| && LateAttempt(s, actions, n) {
      NeverLate(s, actions, n, actions[n].g);
    }
  }

  /** A step that takes a lock finds the state file as its gate read it. */
  ghost predicate ReadStands(s: System, a: Action) {
    a.g < |s.gates| && Takes(s.shared, s.gates[a.g], a) ==> s.shared.lastAttempt == s.gates[a.g].phase.read
  }

  lemma {:induction false} NeverLate(s: System, actions: seq<Action>, n: nat, g: nat)
    requires Initial(s) && n <= |actions|
    requires forall k: nat | k < n :: ReadStands(Run(s, actions[..k]), actions[k])
    ensures !StoryOf(s, actions[..n], g).late
    decreases n
  {
    if n > 0 {
      NeverLate(s, actions, n - 1, g);
      var t, a := Run(s, actions[..n - 1]), actions[n - 1];
      RunTells(s, actions[..n - 1]);
      assert actions[..n][..n - 1] == actions[..n - 1] && ReadStands(t, a);
      hide Run, AttemptTimes, HolderAgrees, Invariant, Linked;
      assert a.g < |t.gates| ==> Tells(t.shared, t.gates[a.g], StoryOf(s, actions[..n - 1], a.g));
    }
  }

  lemma TwoAttempts(e: string, outcome: Outcome)
    ensures var done := Record(CompletedEvent(outcome), e, 0);
      AttemptTimes([Record(AttemptedEvent, e, 0), done, Record(AttemptedEvent, e, 1)]) == [0, 1]
  {
    var attempt0, attempt1 := Record(AttemptedEvent, e, 0), Record(AttemptedEvent, e, 1);
    var done := Record(CompletedEvent(outcome), e, 0);
    AttemptTimesSnoc([], attempt0);
    AttemptTimesSnoc([attempt0], done);
    AttemptTimesSnoc([attempt0] + [done], attempt1);
    assert [] + [attempt0] == [attempt0];
    assert [attempt0] + [done] + [attempt1] == [attempt0, done, attempt1];
  }

  /** Two gates, created one second apart: the second reads before the first one's whole recovery
      and takes the lock after it. */
  lemma LateMkdir(s: System, e: string)
    requires s == System(Shared(false, None, []), [Gate(0, 1800, None, Ready), Gate(1, 1800, None, Ready)])
    ensures var evidence := Evidence(true, e);
      var t := Run(Step(s, Read(1, evidence)), EvaluateActions(0, evidence));
      var u := Run(t, [AuditComplete(0, e, Some(OutcomeCompleted)), Rmdir(0, true), Mkdir(1), WriteState(1)]);
      Step(u, AuditAttempt(1)).shared.log
      == [Record(AttemptedEvent, e, 0), Record(CompletedEvent(OutcomeCompleted), e, 0), Record(AttemptedEvent, e, 1)]
  {
    var evidence := Evidence(true, e);
    var s1 := Step(s, Read(1, evidence));
    EvaluateRefinesSteps(s1, 0, evidence);
    var t := Run(s1, EvaluateActions(0, evidence));
    RunFour(t, AuditComplete(0, e, Some(OutcomeCompleted)), Rmdir(0, true), Mkdir(1), WriteState(1));
  }

  /** Such an interleaving exists. */
  lemma InterleavingBreaksCooldown() returns (s: System, actions: seq<Action>)
    ensures Initial(s) && forall g | 0 <= g < |s.gates| :: s.gates[g].cooldown == 1800
    ensures !Spaced(AttemptsOf(s, actions))
  {
    var e := "event";
    var evidence := Evidence(true, e);
    s := System(Shared(false, None, []), [Gate(0, 1800, None, Ready), Gate(1, 1800, None, Ready)]);
    hide Run, Step, AttemptTimes, AttemptsOf, EvaluateActions;
    LateMkdir(s, e);
    TwoAttempts(e, OutcomeCompleted);
    var first, second := [Read(1, evidence)], EvaluateActions(0, evidence);
    var third := [AuditComplete(0, e, Some(OutcomeCompleted)), Rmdir(0, true), Mkdir(1), WriteState(1)];
    var last := [AuditAttempt(1)];
    actions := first + (second + (third + last));
    RunAppends(s, first, second + (third + last));
    RunOne(s, Read(1, evidence));
    RunAppends(Step(s, Read(1, evidence)), second, third + last);
    var t := Run(Step(s, Read(1, evidence)), second);
    RunAppends(t, third, last);
    RunOne(Run(t, third), AuditAttempt(1));
    CooldownBrokenExactly(s, actions);
    assert Times(AttemptsOf(s, actions)) == [0, 1];
    OneSecondApart(s, actions, 1800);
  }

  lemma {:induction false} CooldownsStay(s: System, actions: seq<Action>, cooldown: int)
    requires forall g | 0 <= g < |s.gates| :: s.gates[g].cooldown == cooldown
    ensures forall g | 0 <= g < |Run(s, actions).gates| :: Run(s, actions).gates[g].cooldown == cooldown
    ensures forall i | 0 <= i < |AttemptsOf(s, actions)| :: AttemptsOf(s, actions)[i].cooldown == cooldown
  {
    if actions != [] {
      CooldownsStay(s, actions[..|actions| - 1], cooldown);
      RunSnoc(s, actions);
      hide Run;
    }
  }

  lemma OneSecondApart(s: System, actions: seq<Action>, cooldown: int)
    requires cooldown > 1 && forall g | 0 <= g < |s.gates| :: s.gates[g].cooldown == cooldown
    requires Times(AttemptsOf(s, actions)) == [0, 1]
    ensures !Spaced(AttemptsOf(s, actions))
  {
    CooldownsStay(s, actions, cooldown);
    var attempts := AttemptsOf(s, actions);
    hide AttemptsOf, Run;
    assert attempts[0].at == Times(attempts)[0] && attempts[1].at == Times(attempts)[1];
  }

  // --- when an attempt can follow ---

  lemma {:induction false} TimesOfProtocol(log: seq<Record>)
    ensures AttemptTimes(log) == AttemptTimes(Protocol(log))
  {
    if log != [] {
      var front, r := log[..|log| - 1], log[|log| - 1];
      TimesOfProtocol(front);
      AttemptTimesSnoc(Protocol(front), r);
      assert Protocol(front) + [] == Protocol(front) && AttemptTimes(front) + [] == AttemptTimes(front);
    }
  }

  ghost predicate Blocked(s: System) {
    s.shared.lock && forall g | 0 <= g < |s.gates| :: s.gates[g].held.None?
  }

  /** The run audits one more attempt. */
  ghost predicate AttemptsMore(s: System, actions: seq<Action>) {
    |AttemptTimes(Run(s, actions).shared.log)| > |AttemptTimes(s.shared.log)|
  }

  /** A gate that could pass its check now. */
  ghost predicate Fresh(shared: Shared, gate: Gate) {
    gate.phase == Ready && gate.held == None && !CooldownActive(shared.lastAttempt, gate.now, gate.cooldown)
  }

  lemma FreeAttempts(s: System, g: nat, evidence: Evidence)
    requires g < |s.gates| && Fresh(s.shared, s.gates[g]) && !s.shared.lock && evidence.actionable
    ensures AttemptsMore(s, EvaluateActions(g, evidence))
  {
    EvaluateRefinesSteps(s, g, evidence);
    AttemptTimesSnoc(s.shared.log, Record(AttemptedEvent, evidence.eventId, s.gates[g].now));
    hide AttemptTimes, Run;
  }

  /** An owner about to write or to audit its own attempt completes it. */
  lemma OwnerAttempts(s: System, g: nat)
    requires g < |s.gates| && (s.gates[g].phase.Locked? || s.gates[g].phase.Written?)
    ensures AttemptsMore(s, [WriteState(g), AuditAttempt(g)])
  {
    var middle := Step(s, WriteState(g));
    RunOne(s, WriteState(g));
    RunOne(middle, AuditAttempt(g));
    RunAppends(s, [WriteState(g)], [AuditAttempt(g)]);
    assert [WriteState(g)] + [AuditAttempt(g)] == [WriteState(g), AuditAttempt(g)];
    TimesAfter(middle.shared, middle.gates[g], AuditAttempt(g));
    hide AttemptTimes, Run;
    assert middle.shared.log == s.shared.log;
  }

  /** Any other owner can finish and let the lock go. */
  lemma OwnerReleases(s: System, g: nat) returns (actions: seq<Action>)
    requires Invariant(s) && g < |s.gates| && s.gates[g].held.Some?
    requires !s.gates[g].phase.Locked? && !s.gates[g].phase.Written?
    ensures var t := Run(s, actions);
      && !t.shared.lock && t.shared.lastAttempt == s.shared.lastAttempt
      && AttemptTimes(t.shared.log) == AttemptTimes(s.shared.log)
      && |t.gates| == |s.gates| && forall h | 0 <= h < |s.gates| && h != g :: t.gates[h] == s.gates[h]
  {
    var e := s.gates[g].held.value;
    assert GateOk(s.shared, s.gates[g]);
    var a, b, c := Mkdir(g), AuditComplete(g, e, Some(OutcomeCompleted)), Rmdir(g, true);
    actions := [a, b, c, c];
    RunFour(s, a, b, c, c);
    var s1 := Step(s, a);
    var s2 := Step(s1, b);
    TimesAfter(s.shared, s.gates[g], a);
    TimesAfter(s1.shared, s1.gates[g], b);
    hide Run, AttemptTimes, Protocol, Invariant;
    assert AttemptTimes(s.shared.log) + [] == AttemptTimes(s.shared.log);
  }

  /** Let a further gate be started that could pass its check now.  Some continuation audits another
      attempt exactly when there is no lock or a live gate owns it. */
  lemma AttemptFollowsExactly(s: System, next: Gate)
    requires Invariant(s) && Fresh(s.shared, next)
    ensures var t := System(s.shared, s.gates + [next]);
      (exists actions :: AttemptsMore(t, actions)) <==> !Blocked(s)
  {
    var t, n, evidence := System(s.shared, s.gates + [next]), |s.gates|, Evidence(true, "event");
    assert t.gates[n] == next && forall g | 0 <= g < n :: t.gates[g] == s.gates[g];
    assert Invariant(t);
    if Blocked(s) {
      forall actions ensures !AttemptsMore(t, actions) {
        OwnerlessLockBlocksForever(t, actions);
        TimesOfProtocol(t.shared.log);
        TimesOfProtocol(Run(t, actions).shared.log);
      }
    } else if !s.shared.lock {
      FreeAttempts(t, n, evidence);
    } else {
      var g: nat :| g < n && s.gates[g].held.Some?;
      hide Invariant;
      if s.gates[g].phase.Locked? || s.gates[g].phase.Written? {
        OwnerAttempts(t, g);
      } else {
        var actions := OwnerReleases(t, g);
        FreeAttempts(Run(t, actions), n, evidence);
        RunAppends(t, actions, EvaluateActions(n, evidence));
        assert AttemptsMore(t, actions + EvaluateActions(n, evidence));
      }
    }
  }
}
