/** The durable job queue: leases with fencing epochs, and local effects applied exactly once. */
module Worker {
  import opened Ordering
  import opened Text

  datatype Status = Queued | Running | Deferred | Succeeded | Failed | DeadLetter | Canceled

  /** A row of the job table. */
  datatype Job = Job(
    scope: Str, jobType: Str, semanticKey: Str, payloadHash: Str, status: Status,
    priority: int, availableAt: int, attempts: nat, maxAttempts: nat,
    leaseOwner: Option<Str>, leaseEpoch: nat, leaseExpiresAt: Option<int>, createdAt: int)

  datatype Lease = Lease(jobId: Str, owner: Str, epoch: nat)

  datatype EffectId = EffectId(jobId: Str, key: Str)

  /** A row of applied_effect. */
  datatype Receipt = Receipt(inputHash: Str, revision: int, result: Str)

  datatype Aggregate = Aggregate(version: int, state: Str)

  /** What a delivery attempt came to. */
  datatype Delivery = Delivered | Undelivered | Unknown

  /**
   * A delivery transaction between its lease check and its writes, in which it holds no lock on the job row: what it is
   * to commit, and what it read of the row.
   */
  datatype Pending = Pending(
    lease: Lease, key: Str, inputHash: Str, delivery: Delivery, retryable: bool, result: Str,
    attempts: nat, maxAttempts: nat)

  /** The tables, with aggregates keyed by scope and name, and the deliveries in progress by database session. */
  datatype State = State(
    jobs: map<Str, Job>, receipts: map<EffectId, Receipt>, aggregates: map<(Str, Str), Aggregate>,
    pending: map<nat, Pending>)

  /**
   * One transaction of some worker or client, with the database's last clock reading in it; but a delivery, which does
   * not lock the job row it checks, is two steps.
   */
  datatype Op =
    | Enqueue(
        jobId: Str, scope: Str, jobType: Str, semanticKey: Str, payloadHash: Str, priority: int,
        availableAt: Option<int>, maxAttempts: nat, now: int)
    | Claim(scope: Str, owner: Str, onlyType: Option<Str>, insist: bool, locked: set<Str>, duration: int, now: int)
    | Heartbeat(lease: Lease, duration: int, now: int)
    | Complete(lease: Lease, now: int)
    | Fail(lease: Lease, retryable: bool, nextAvailableAt: Option<int>, now: int)
    | Defer(lease: Lease, until: int, now: int)
    | Cancel(scope: Str, jobId: Str, byLease: Option<Lease>, now: int)
    | CommitEffect(
        lease: Lease, key: Str, inputHash: Str, aggregate: Str, mutation: Str -> Option<Str>, now: int)
    | CheckDelivery(
        session: nat, lease: Lease, key: Str, inputHash: Str, delivery: Delivery, retryable: bool, result: Str,
          now: int)
    | WriteDelivery(session: nat, recorded: Option<nat>, now: int)
    | RollBackDelivery(session: nat)
    | CreateAggregate(target: (Str, Str), version: nat, state: Str)
    | UpdateAggregate(target: (Str, Str), state: Str)

  datatype Outcome = Refused | Done | Checked | Granted(lease: Lease) | Effect(receipt: Receipt)

  predicate Terminal(s: Status) {
    s in {Succeeded, Failed, DeadLetter, Canceled}
  }

  /** The lease is the job's current one and has not run out. */
  predicate HoldsLease(s: State, l: Lease, now: int) {
    l.jobId in s.jobs &&
    var j := s.jobs[l.jobId];
    j.status == Running && j.leaseOwner == Some(l.owner) && j.leaseEpoch == l.epoch
    && j.leaseExpiresAt.Some? && j.leaseExpiresAt.value > now
  }

  function Release(j: Job, status: Status): Job {
    j.(status := status, leaseOwner := None, leaseExpiresAt := None)
  }

  // ---- claiming ------------------------------------------------------------------------------------

  predicate InScope(j: Job, scope: Str, jobType: Option<Str>) {
    j.scope == scope && (jobType.None? || j.jobType == jobType.value)
  }

  /** A job whose attempts are used up and that is due again. */
  predicate Exhausted(j: Job, op: Op)
    requires op.Claim?
  {
    InScope(j, op.scope, op.onlyType) && j.attempts >= j.maxAttempts &&
    (|| (j.status == Running && j.leaseExpiresAt.Some? && j.leaseExpiresAt.value <= op.now)
     || (j.status in {Queued, Deferred} && j.availableAt <= op.now))
  }

  predicate Eligible(j: Job, op: Op)
    requires op.Claim?
  {
    InScope(j, op.scope, op.onlyType) && j.status in {Queued, Deferred, Running} && j.attempts < j.maxAttempts
    && j.availableAt <= op.now && (j.leaseExpiresAt.None? || j.leaseExpiresAt.value <= op.now)
  }

  /** `ORDER BY priority DESC, available_at, created_at, job_id` */
  predicate Before(a: Str, x: Job, b: Str, y: Job) {
    if x.priority != y.priority then x.priority > y.priority
    else if x.availableAt != y.availableAt then x.availableAt < y.availableAt
    else if x.createdAt != y.createdAt then x.createdAt < y.createdAt
    else StrLess(a, b)
  }

  predicate IsCandidate(s: State, op: Op, id: Str)
    requires op.Claim?
  {
    id in s.jobs && id !in op.locked && Eligible(s.jobs[id], op)
  }

  /** The first unlocked eligible job. */
  ghost predicate IsFirst(s: State, op: Op, id: Str)
    requires op.Claim?
  {
    IsCandidate(s, op, id) &&
    forall other :: other != id && IsCandidate(s, op, other) ==> Before(id, s.jobs[id], other, s.jobs[other])
  }

  /** Moves the exhausted unlocked jobs to the dead letters. */
  function BuryExhausted(s: State, op: Op): map<Str, Job>
    requires op.Claim?
  {
    map id | id in s.jobs ::
      if id !in op.locked && Exhausted(s.jobs[id], op) then Release(s.jobs[id], DeadLetter) else s.jobs[id]
  }

  function Grant(j: Job, op: Op): Job
    requires op.Claim?
  {
    j.(status := Running, attempts := j.attempts + 1, leaseOwner := Some(op.owner),
       leaseEpoch := j.leaseEpoch + 1, leaseExpiresAt := Some(op.now + op.duration))
  }

  ghost function ClaimStep(s: State, op: Op): (State, Outcome)
    requires op.Claim?
  {
    var buried := BuryExhausted(s, op);
    if exists id :: IsFirst(s, op, id) then
      var id :| IsFirst(s, op, id);
      (s.(jobs := buried[id := Grant(s.jobs[id], op)]), Granted(Lease(id, op.owner, s.jobs[id].leaseEpoch + 1)))
    else if op.insist then (s, Refused)
    else (s.(jobs := buried), Refused)
  }

  // ---- the other transactions ----------------------------------------------------------------------

  predicate SameWork(j: Job, op: Op)
    requires op.Enqueue?
  {
    j.scope == op.scope && j.semanticKey == op.semanticKey
  }

  predicate SameJob(j: Job, op: Op)
    requires op.Enqueue?
  {
    SameWork(j, op) && j.jobType == op.jobType && j.payloadHash == op.payloadHash
  }

  function EnqueueStep(s: State, op: Op): (State, Outcome)
    requires op.Enqueue?
  {
    if op.maxAttempts == 0 then (s, Refused)
    else if exists id :: id in s.jobs && SameWork(s.jobs[id], op) then
      (s, if exists id :: id in s.jobs && SameJob(s.jobs[id], op) then Done else Refused)
    else if op.jobId in s.jobs then (s, Refused)
    else
      var availableAt := match op.availableAt case Some(t) => t case None => op.now;
      (s.(jobs := s.jobs[op.jobId := Job(op.scope, op.jobType, op.semanticKey, op.payloadHash, Queued,
        op.priority, availableAt, 0, op.maxAttempts, None, 0, None, op.now)]), Done)
  }

  function Power(n: nat): nat {
    if n == 0 then 1 else 2 * Power(n - 1)
  }

  /** `min(2 ** max(attempts - 1, 0), 3600)` */
  function Backoff(attempts: nat): nat {
    var delay := Power(if attempts > 0 then attempts - 1 else 0);
    if delay < 3600 then delay else 3600
  }

  function FailedRow(j: Job, op: Op): Job
    requires op.Fail?
  {
    var status := if !op.retryable then Failed else if j.attempts < j.maxAttempts then Queued else DeadLetter;
    var again := match op.nextAvailableAt case Some(t) => t case None => op.now + Backoff(j.attempts);
    Release(j, status).(availableAt := if status == Queued then again else j.availableAt)
  }

  predicate ByOwner(op: Op) {
    op.Heartbeat? || op.Complete? || op.Fail? || op.Defer?
  }

  /** What the owner of a lease turns its job row into. */
  function OwnedRow(j: Job, op: Op): Job
    requires ByOwner(op)
  {
    match op
    case Heartbeat(_, duration, now) => j.(leaseExpiresAt := Some(now + duration))
    case Complete(_, _) => Release(j, Succeeded)
    case Fail(_, _, _, _) => FailedRow(j, op)
    case Defer(_, until, _) => Release(j, Deferred).(availableAt := until)
  }

  function OwnerStep(s: State, op: Op): (State, Outcome)
    requires ByOwner(op)
  {
    if !HoldsLease(s, op.lease, op.now) || (op.Defer? && op.until <= op.now) then (s, Refused)
    else (s.(jobs := s.jobs[op.lease.jobId := OwnedRow(s.jobs[op.lease.jobId], op)]), Done)
  }

  predicate HasEffect(s: State, jobId: Str) {
    exists e :: e in s.receipts && e.jobId == jobId
  }

  function CancelStep(s: State, op: Op): (State, Outcome)
    requires op.Cancel?
  {
    if op.byLease.Some? && op.byLease.value.jobId != op.jobId then (s, Refused)
    else if op.jobId !in s.jobs || s.jobs[op.jobId].scope != op.scope then (s, Refused)
    else
      var j := s.jobs[op.jobId];
      if Terminal(j.status) || HasEffect(s, op.jobId) then (s, Refused)
      else if op.byLease.Some? && !HoldsLease(s, op.byLease.value, op.now) then (s, Refused)
      else if op.byLease.None? && j.status == Running && !(j.leaseExpiresAt.Some? && j.leaseExpiresAt.value <= op.now)
        then (s, Refused)
      else (s.(jobs := s.jobs[op.jobId := Release(j, Canceled)]), Done)
  }

  /** The aggregate a local effect of the job changes. */
  function Target(s: State, op: Op): (Str, Str)
    requires op.CommitEffect? && op.lease.jobId in s.jobs
  {
    (s.jobs[op.lease.jobId].scope, op.aggregate)
  }

  function CommitStep(s: State, op: Op): (State, Outcome)
    requires op.CommitEffect?
  {
    var id := EffectId(op.lease.jobId, op.key);
    if !HoldsLease(s, op.lease, op.now) then (s, Refused)
    else if id in s.receipts
      then (s, if s.receipts[id].inputHash == op.inputHash then Effect(s.receipts[id]) else Refused)
    else if Target(s, op) !in s.aggregates then (s, Refused)
    else
      var current := s.aggregates[Target(s, op)];
      match op.mutation(current.state)
      case None => (s, Refused)
      case Some(next) =>
        var receipt := Receipt(op.inputHash, current.version + 1, next);
        (s.(receipts := s.receipts[id := receipt],
            aggregates := s.aggregates[Target(s, op) := Aggregate(current.version + 1, next)]), Effect(receipt))
  }

  /** The first half of `commit_delivery_effect`: the lease check and the search for a receipt. */
  function CheckStep(s: State, op: Op): (State, Outcome)
    requires op.CheckDelivery?
  {
    var id := EffectId(op.lease.jobId, op.key);
    if op.session in s.pending || !HoldsLease(s, op.lease, op.now) then (s, Refused)
    else if id in s.receipts
      then (s, if s.receipts[id].inputHash == op.inputHash then Effect(s.receipts[id]) else Refused)
    else
      var j := s.jobs[op.lease.jobId];
      var p := Pending(
        op.lease, op.key, op.inputHash, op.delivery, op.retryable, op.result, j.attempts, j.maxAttempts);
      (s.(pending := s.pending[op.session := p]), Checked)
  }

  predicate HoldsEpoch(j: Job, l: Lease) {
    j.status == Running && j.leaseOwner == Some(l.owner) && j.leaseEpoch == l.epoch
  }

  /** The job row after the delivery's update, which asks for the owner and the epoch but not for the time. */
  function DeliveredRow(j: Job, p: Pending, now: int): Job {
    if !HoldsEpoch(j, p.lease) then j
    else
      match p.delivery
      case Delivered => Release(j, Succeeded)
      case Unknown => Release(j, Failed)
      case Undelivered =>
        if p.retryable && p.attempts < p.maxAttempts then Release(j, Queued).(availableAt := now + 1)
        else Release(j, Failed)
  }

  function Ended(s: State, session: nat): State {
    s.(pending := s.pending - {session})
  }

  /**
   * The second half: the receipt, which the key of its table may refuse, and the update of the job row, of which nobody
   * asks whether it found the row. `recorded` is the attempt count in the delivery's status row, if there is one.
   */
  function WriteStep(s: State, op: Op): (State, Outcome)
    requires op.WriteDelivery?
  {
    if op.session !in s.pending then (s, Refused)
    else
      var p := s.pending[op.session];
      var id := EffectId(p.lease.jobId, p.key);
      if id in s.receipts || op.recorded.None? || p.lease.jobId !in s.jobs then (Ended(s, op.session), Refused)
      else
        var attempt := if op.recorded.value + 1 > p.attempts then op.recorded.value + 1 else p.attempts;
        var receipt := Receipt(p.inputHash, attempt, p.result);
        var row := DeliveredRow(s.jobs[p.lease.jobId], p, op.now);
        (Ended(s, op.session).(receipts := s.receipts[id := receipt], jobs := s.jobs[p.lease.jobId := row]),
          Effect(receipt))
  }

  /** Inserts an aggregate at any version, as seeding does, or at 1, as the first command on it does. */
  function CreateStep(s: State, op: Op): (State, Outcome)
    requires op.CreateAggregate?
  {
    if op.target in s.aggregates then (s, Refused)
    else (s.(aggregates := s.aggregates[op.target := Aggregate(op.version, op.state)]), Done)
  }

  /** A command's guarded update of an aggregate. */
  function UpdateStep(s: State, op: Op): (State, Outcome)
    requires op.UpdateAggregate?
  {
    if op.target !in s.aggregates then (s, Refused)
    else
      var version := s.aggregates[op.target].version + 1;
      (s.(aggregates := s.aggregates[op.target := Aggregate(version, op.state)]), Done)
  }

  /** One committed or rolled-back transaction. */
  ghost function Step(s: State, op: Op): (State, Outcome) {
    match op
    case Enqueue(_, _, _, _, _, _, _, _, _) => EnqueueStep(s, op)
    case Claim(_, _, _, _, _, _, _) => ClaimStep(s, op)
    case Heartbeat(_, _, _) => OwnerStep(s, op)
    case Complete(_, _) => OwnerStep(s, op)
    case Fail(_, _, _, _) => OwnerStep(s, op)
    case Defer(_, _, _) => OwnerStep(s, op)
    case Cancel(_, _, _, _) => CancelStep(s, op)
    case CommitEffect(_, _, _, _, _, _) => CommitStep(s, op)
    case CheckDelivery(_, _, _, _, _, _, _, _) => CheckStep(s, op)
    case WriteDelivery(_, _, _) => WriteStep(s, op)
    case RollBackDelivery(session) => (Ended(s, session), Done)
    case CreateAggregate(_, _, _) => CreateStep(s, op)
    case UpdateAggregate(_, _) => UpdateStep(s, op)
  }

  ghost function Run(s: State, ops: seq<Op>): State
    decreases |ops|
  {
    if ops == [] then s else Run(Step(s, ops[0]).0, ops[1..])
  }

  // ---- one row ---------------------------------------------------------------------------------------

  /** A row keeps its attempt budget, and has an owner exactly while it runs. */
  predicate RowSound(j: Job) {
    && j.attempts <= j.maxAttempts
    && (j.status == Running <==> j.leaseOwner.Some?)
    && (j.leaseOwner.Some? <==> j.leaseExpiresAt.Some?)
  }

  /**
   * What any transaction may do to a row: nothing, take it for one more attempt under the next epoch, or work on it
   * within its epoch.
   */
  predicate RowStep(j: Job, k: Job) {
    && k.maxAttempts == j.maxAttempts && k.scope == j.scope && k.semanticKey == j.semanticKey
    && (Terminal(j.status) ==> k == j)
    && (|| (k.attempts == j.attempts && k.leaseEpoch == j.leaseEpoch)
        || (k.attempts == j.attempts + 1 && k.leaseEpoch == j.leaseEpoch + 1 && k.status == Running))
    && (RowSound(j) ==> RowSound(k))
  }

  ghost predicate RowsStep(s: State, t: State) {
    forall id :: id in s.jobs ==> id in t.jobs && RowStep(s.jobs[id], t.jobs[id])
  }

  lemma StepRows(s: State, op: Op)
    ensures RowsStep(s, Step(s, op).0)
  {
    hide RowStep, ClaimStep, OwnerStep, EnqueueStep, CancelStep, CommitStep, WriteStep;
    forall j { RowStays(j); }
    match op
    case Enqueue(_, _, _, _, _, _, _, _, _) => QueueRows(s, op);
    case Claim(_, _, _, _, _, _, _) => ClaimRows(s, op);
    case Heartbeat(_, _, _) => LeaseRows(s, op);
    case Complete(_, _) => LeaseRows(s, op);
    case Fail(_, _, _, _) => LeaseRows(s, op);
    case Defer(_, _, _) => LeaseRows(s, op);
    case Cancel(_, _, _, _) => QueueRows(s, op);
    case CommitEffect(_, _, _, _, _, _) => CommitRows(s, op);
    case CheckDelivery(_, _, _, _, _, _, _, _) =>
    case WriteDelivery(_, _, _) => DeliveryRows(s, op);
    case RollBackDelivery(_) =>
    case CreateAggregate(_, _, _) =>
    case UpdateAggregate(_, _) =>
  }

  lemma RowStays(j: Job)
    ensures RowStep(j, j)
  {
  }

  lemma LeaseRows(s: State, op: Op)
    requires ByOwner(op)
    ensures RowsStep(s, OwnerStep(s, op).0)
  {
  }

  lemma QueueRows(s: State, op: Op)
    requires op.Enqueue? || op.Cancel?
    ensures RowsStep(s, Step(s, op).0)
  {
  }

  lemma CommitRows(s: State, op: Op)
    requires op.CommitEffect?
    ensures RowsStep(s, CommitStep(s, op).0)
  {
  }

  lemma DeliveryRows(s: State, op: Op)
    requires op.WriteDelivery?
    ensures RowsStep(s, WriteStep(s, op).0)
  {
  }

  lemma ClaimRows(s: State, op: Op)
    requires op.Claim?
    ensures RowsStep(s, ClaimStep(s, op).0)
  {
    hide Before, InScope;
  }

  /** What any run may do to a row: its epochs and attempts advance together, and a terminal row is frozen. */
  predicate RowRun(j: Job, k: Job) {
    && k.maxAttempts == j.maxAttempts && k.scope == j.scope && k.semanticKey == j.semanticKey
    && (Terminal(j.status) ==> k == j)
    && k.attempts >= j.attempts && k.leaseEpoch - j.leaseEpoch == k.attempts - j.attempts
    && (RowSound(j) ==> RowSound(k))
  }

  /**
   * Over any run no job disappears, terminal jobs stay as they are, and no job is attempted more often than allowed.
   */
  lemma {:induction false} RunRows(s: State, ops: seq<Op>, id: Str)
    requires id in s.jobs
    ensures id in Run(s, ops).jobs && RowRun(s.jobs[id], Run(s, ops).jobs[id])
    decreases |ops|
  {
    hide Step;
    if ops != [] {
      StepRows(s, ops[0]);
      RunRows(Step(s, ops[0]).0, ops[1..], id);
    }
  }

  // ---- fencing ---------------------------------------------------------------------------------------

  /** The leases a run grants on a job, in order. */
  ghost function Grants(s: State, ops: seq<Op>, id: Str): seq<Lease>
    decreases |ops|
  {
    if ops == [] then []
    else
      var rest := Grants(Step(s, ops[0]).0, ops[1..], id);
      match Step(s, ops[0]).1
      case Granted(l) => if l.jobId == id then [l] + rest else rest
      case _ => rest
  }

  /** A transaction grants a lease on a job exactly when it raises the job's epoch, and then grants that epoch. */
  lemma StepGrants(s: State, op: Op, id: Str)
    requires id in s.jobs
    ensures var r := Step(s, op);
      && id in r.0.jobs
      && (r.1.Granted? && r.1.lease.jobId == id ==>
            r.0.jobs[id].leaseEpoch == s.jobs[id].leaseEpoch + 1 == r.1.lease.epoch
              && HoldsEpoch(r.0.jobs[id], r.1.lease))
      && (!(r.1.Granted? && r.1.lease.jobId == id) ==> r.0.jobs[id].leaseEpoch == s.jobs[id].leaseEpoch)
  {
  }

  /**
   * Every grant on a job carries the next epoch, so no epoch is ever granted twice; and there are never more grants
   * than attempts allowed.
   */
  lemma {:induction false} EpochsAreFresh(s: State, ops: seq<Op>, id: Str)
    requires id in s.jobs
    ensures var grants, end := Grants(s, ops, id), Run(s, ops);
      && (forall k :: 0 <= k < |grants| ==> grants[k].epoch == s.jobs[id].leaseEpoch + 1 + k)
      && id in end.jobs && end.jobs[id].leaseEpoch == s.jobs[id].leaseEpoch + |grants|
      && (RowSound(s.jobs[id]) ==> s.jobs[id].attempts + |grants| <= s.jobs[id].maxAttempts)
    decreases |ops|
  {
    hide Step;
    if ops != [] {
      StepGrants(s, ops[0], id);
      EpochsAreFresh(Step(s, ops[0]).0, ops[1..], id);
    }
    RunRows(s, ops, id);
  }

  /** The lease a transaction acts under, if any. */
  function LeaseOf(op: Op): Option<Lease> {
    match op
    case Heartbeat(l, _, _) => Some(l)
    case Complete(l, _) => Some(l)
    case Fail(l, _, _, _) => Some(l)
    case Defer(l, _, _) => Some(l)
    case CommitEffect(l, _, _, _, _, _) => Some(l)
    case CheckDelivery(_, l, _, _, _, _, _, _) => Some(l)
    case Cancel(_, _, byLease, _) => byLease
    case _ => None
  }

  /**
   * Once a job has been taken over, whatever its former owner begins is refused and changes nothing, in every later
   * state.
   */
  lemma FencedForever(s: State, ops: seq<Op>, op: Op)
    requires LeaseOf(op).Some? && LeaseOf(op).value.jobId in s.jobs
    requires LeaseOf(op).value.epoch < s.jobs[LeaseOf(op).value.jobId].leaseEpoch
    ensures Step(Run(s, ops), op) == (Run(s, ops), Refused)
  {
    hide Run, RowSound;
    RunRows(s, ops, LeaseOf(op).value.jobId);
  }

  // ---- which job a claim takes -----------------------------------------------------------------------

  lemma BeforeIsOrder(a: Str, x: Job, b: Str, y: Job, c: Str, z: Job)
    ensures a != b ==> Before(a, x, b, y) || Before(b, y, a, x)
    ensures Before(a, x, b, y) && Before(b, y, c, z) ==> Before(a, x, c, z)
  {
    hide StrLess;
    StrOrder();
  }

  lemma {:induction false} LeastCandidate(s: State, op: Op, ids: set<Str>) returns (m: Str)
    requires op.Claim? && ids != {} && forall id :: id in ids ==> id in s.jobs
    ensures m in ids && forall id :: id in ids && id != m ==> Before(m, s.jobs[m], id, s.jobs[id])
  {
    hide Before;
    m :| m in ids;
    var rest := ids - {m};
    assert ids == rest + {m};
    if rest != {} {
      var k := LeastCandidate(s, op, rest);
      forall id | id in ids { BeforeIsOrder(m, s.jobs[m], k, s.jobs[k], id, s.jobs[id]); }
      forall id | id in ids { BeforeIsOrder(k, s.jobs[k], m, s.jobs[m], id, s.jobs[id]); }
      if Before(k, s.jobs[k], m, s.jobs[m]) { m := k; }
    }
  }

  /** A claim is granted exactly when some unlocked job is eligible, and then on the first of them in claim order. */
  lemma ClaimTakesFirst(s: State, op: Op)
    requires op.Claim?
    ensures Step(s, op).1.Granted? <==> exists id :: IsCandidate(s, op, id)
    ensures Step(s, op).1.Granted? ==> IsFirst(s, op, Step(s, op).1.lease.jobId)
  {
    hide Eligible, Before, BuryExhausted;
    if exists id :: IsCandidate(s, op, id) {
      var ids := set id | id in s.jobs && IsCandidate(s, op, id);
      var any :| IsCandidate(s, op, any);
      assert any in ids;
      var m := LeastCandidate(s, op, ids);
      assert IsFirst(s, op, m);
    }
  }

  // ---- effects ---------------------------------------------------------------------------------------

  /** The effect this transaction asks for, with the hash of its input. */
  function EffectOf(op: Op): Option<(EffectId, Str)> {
    match op
    case CommitEffect(l, key, hash, _, _, _) => Some((EffectId(l.jobId, key), hash))
    case CheckDelivery(_, l, key, hash, _, _, _, _) => Some((EffectId(l.jobId, key), hash))
    case _ => None
  }

  /** The effect this transaction commits, if it commits one that had no receipt. */
  ghost function CommitOf(s: State, op: Op): Option<EffectId> {
    match op
    case CommitEffect(l, key, _, _, _, _) =>
      if Step(s, op).1.Effect? && EffectId(l.jobId, key) !in s.receipts then Some(EffectId(l.jobId, key)) else None
    case WriteDelivery(session, _, _) =>
      if Step(s, op).1.Effect? then Some(EffectId(s.pending[session].lease.jobId, s.pending[session].key)) else None
    case _ => None
  }

  /** The effects a run commits, in order. */
  ghost function Commits(s: State, ops: seq<Op>): seq<EffectId>
    decreases |ops|
  {
    if ops == [] then []
    else
      var rest := Commits(Step(s, ops[0]).0, ops[1..]);
      match CommitOf(s, ops[0]) case Some(e) => [e] + rest case None => rest
  }

  /** Who wrote an aggregate: its creator, a command, or the local effect of a job. */
  datatype Author = Creation | Command | ByEffect(id: EffectId)

  /** A write to an aggregate: what it makes of the state before it, and the version and state it left. */
  datatype Write = Write(
    target: (Str, Str), author: Author, change: Str -> Option<Str>, version: int, state: Str)

  /** Whatever was there before. */
  function Always(state: Str): Str -> Option<Str> {
    (_: Str) => Some(state)
  }

  /** The write this transaction makes to an aggregate, if it makes one. */
  ghost function WriteOf(s: State, op: Op): Option<Write> {
    match op
    case CreateAggregate(t, version, state) =>
      if t in s.aggregates then None else Some(Write(t, Creation, Always(state), version, state))
    case UpdateAggregate(t, state) =>
      if t !in s.aggregates then None
      else Some(Write(t, Command, Always(state), s.aggregates[t].version + 1, state))
    case CommitEffect(l, _, _, name, mutation, _) =>
      if CommitOf(s, op).None? then None
      else
        var t := (s.jobs[l.jobId].scope, name);
        var next := mutation(s.aggregates[t].state).value;
        Some(Write(t, ByEffect(CommitOf(s, op).value), mutation, s.aggregates[t].version + 1, next))
    case _ => None
  }

  /** The writes of a run, in order. */
  ghost function Writes(s: State, ops: seq<Op>): seq<Write>
    decreases |ops|
  {
    if ops == [] then []
    else
      var rest := Writes(Step(s, ops[0]).0, ops[1..]);
      match WriteOf(s, ops[0]) case Some(w) => [w] + rest case None => rest
  }

  /** A transaction keeps every receipt, and adds exactly the one of the effect it commits. */
  lemma StepCommits(s: State, op: Op)
    ensures var t := Step(s, op).0;
      && (forall e :: e in s.receipts ==> e in t.receipts && t.receipts[e] == s.receipts[e])
      && (forall e :: e in t.receipts <==> e in s.receipts || CommitOf(s, op) == Some(e))
      && (CommitOf(s, op).Some? ==> CommitOf(s, op).value !in s.receipts)
  {
  }

  lemma {:induction false} ReceiptsStay(s: State, ops: seq<Op>)
    ensures forall e :: e in s.receipts ==> e in Run(s, ops).receipts && Run(s, ops).receipts[e] == s.receipts[e]
    decreases |ops|
  {
    hide Step;
    if ops != [] {
      StepCommits(s, ops[0]);
      ReceiptsStay(Step(s, ops[0]).0, ops[1..]);
    }
  }

  /**
   * Whatever crashes, takeovers and retries a run contains, each effect is committed at most once, and never if it
   * already was.
   */
  lemma {:induction false} EffectsCommittedOnce(s: State, ops: seq<Op>)
    ensures NoRepeats(Commits(s, ops))
    ensures forall e :: e in Run(s, ops).receipts <==> e in s.receipts || e in Commits(s, ops)
    ensures forall e :: e in Commits(s, ops) ==> e !in s.receipts
    decreases |ops|
  {
    hide Step, CommitOf;
    if ops != [] {
      StepCommits(s, ops[0]);
      EffectsCommittedOnce(Step(s, ops[0]).0, ops[1..]);
    }
  }

  /**
   * A local effect is committed exactly under a lease that is held, when it has no receipt, its aggregate is there and
   * the mutation takes the state. The mutated state is then stored one version up and recorded with that version in
   * the receipt, and nothing else changes.
   */
  lemma EffectApplies(s: State, op: Op)
    requires op.CommitEffect?
    ensures var (id, job) := (EffectId(op.lease.jobId, op.key), op.lease.jobId);
      && (CommitOf(s, op).Some? <==>
        && HoldsLease(s, op.lease, op.now) && id !in s.receipts
        && (s.jobs[job].scope, op.aggregate) in s.aggregates
        && op.mutation(s.aggregates[(s.jobs[job].scope, op.aggregate)].state).Some?)
      && (CommitOf(s, op).Some? ==>
        var target := (s.jobs[job].scope, op.aggregate);
        var version, next := s.aggregates[target].version + 1, op.mutation(s.aggregates[target].state).value;
        var receipt := Receipt(op.inputHash, version, next);
        && CommitOf(s, op).value == id
        && Step(s, op).0 == s.(
             aggregates := s.aggregates[target := Aggregate(version, next)], receipts := s.receipts[id := receipt])
        && Step(s, op).1 == Effect(receipt))
  {
  }

  /**
   * A transaction changes an aggregate exactly when it writes it: to the version and the state of the write, which are
   * one version up and what its change makes of the state before; an effect's write is new and leaves a receipt of
   * both.
   */
  lemma StepWrites(s: State, op: Op)
    ensures op.CreateAggregate? || op.UpdateAggregate? ==>
      Step(s, op).1 == if WriteOf(s, op).Some? then Done else Refused
    ensures var t := Step(s, op).0;
      match WriteOf(s, op)
      case None => t.aggregates == s.aggregates
      case Some(w) =>
        && t.aggregates == s.aggregates[w.target := Left(w)] && Follows(w, Stored(s, w.target))
        && (w.author.ByEffect? ==>
              CommitOf(s, op) == Some(w.author.id) && w.author.id in t.receipts && Records(t.receipts[w.author.id], w))
  {
  }

  function Left(w: Write): Aggregate {
    Aggregate(w.version, w.state)
  }

  function Stored(s: State, target: (Str, Str)): Option<Aggregate> {
    if target in s.aggregates then Some(s.aggregates[target]) else None
  }

  /** The write creates the aggregate, or raises its version by one and changes its state. */
  predicate Follows(w: Write, before: Option<Aggregate>) {
    match before
    case None => w.author.Creation?
    case Some(a) => !w.author.Creation? && w.version == a.version + 1 && w.change(a.state) == Some(w.state)
  }

  predicate Records(r: Receipt, w: Write) {
    r.revision == w.version && r.result == w.state
  }

  /** If an effect made the write, it had no receipt at the start, and at the end it has the one of this write. */
  predicate Receipted(w: Write, start: map<EffectId, Receipt>, end: map<EffectId, Receipt>) {
    w.author.ByEffect? ==> w.author.id !in start && w.author.id in end && Records(end[w.author.id], w)
  }

  predicate AllReceipted(writes: seq<Write>, start: map<EffectId, Receipt>, end: map<EffectId, Receipt>) {
    forall k :: 0 <= k < |writes| ==> Receipted(writes[k], start, end)
  }

  /** No effect made two of the writes. */
  predicate OncePerEffect(writes: seq<Write>) {
    forall i, j :: 0 <= i < j < |writes| && writes[i].author.ByEffect? ==> writes[i].author != writes[j].author
  }

  lemma OnceMore(w: Write, rest: seq<Write>, s: State, t: State, end: State)
    requires forall e :: e in s.receipts ==> e in t.receipts
    requires forall e :: e in t.receipts ==> e in end.receipts && end.receipts[e] == t.receipts[e]
    requires AllReceipted(rest, t.receipts, end.receipts) && OncePerEffect(rest)
    requires Receipted(w, s.receipts, t.receipts)
    ensures AllReceipted([w] + rest, s.receipts, end.receipts) && OncePerEffect([w] + rest)
  {
  }

  /**
   * Every local effect writes at most one aggregate, at most once, and its receipt for ever gives the version and the
   * state it left.
   */
  lemma {:induction false} EffectsAppliedOnce(s: State, ops: seq<Op>)
    ensures AllReceipted(Writes(s, ops), s.receipts, Run(s, ops).receipts)
    ensures OncePerEffect(Writes(s, ops))
    decreases |ops|
  {
    hide Step, WriteOf, CommitOf, OncePerEffect;
    if ops == [] {
      NoWrites();
    } else {
      var t := Step(s, ops[0]).0;
      StepWrites(s, ops[0]);
      StepCommits(s, ops[0]);
      EffectsAppliedOnce(t, ops[1..]);
      ReceiptsStay(t, ops[1..]);
      if WriteOf(s, ops[0]).Some? {
        OnceMore(WriteOf(s, ops[0]).value, Writes(t, ops[1..]), s, t, Run(s, ops));
      }
    }
  }

  lemma NoWrites()
    ensures OncePerEffect([])
  {
  }

  /** The writes to one aggregate. */
  function History(writes: seq<Write>, target: (Str, Str)): seq<Write> {
    if writes == [] then []
    else (if writes[0].target == target then [writes[0]] else []) + History(writes[1..], target)
  }

  /** `history` continues from what was stored at the start. */
  predicate Continues(history: seq<Write>, start: Option<Aggregate>) {
    && (history != [] ==> Follows(history[0], start))
    && (forall k :: 0 < k < |history| ==> Follows(history[k], Some(Left(history[k - 1]))))
  }

  function LastLeft(history: seq<Write>, start: Option<Aggregate>): Option<Aggregate> {
    if history == [] then start else Some(Left(history[|history| - 1]))
  }

  /**
   * An aggregate is what its writes made of it: it is created at most once, every later write raises its version by one
   * and changes the state the one before left, and the last one is what is stored.
   */
  lemma {:induction false} AggregateIsItsHistory(s: State, ops: seq<Op>, target: (Str, Str))
    ensures Continues(History(Writes(s, ops), target), Stored(s, target))
    ensures Stored(Run(s, ops), target) == LastLeft(History(Writes(s, ops), target), Stored(s, target))
    decreases |ops|
  {
    hide Step, WriteOf, CommitOf, Continues, LastLeft, Follows, Records;
    if ops == [] {
      NoHistory(Stored(s, target));
    } else {
      var t := Step(s, ops[0]).0;
      StepWrites(s, ops[0]);
      AggregateIsItsHistory(t, ops[1..], target);
      if WriteOf(s, ops[0]).Some? {
        var w := WriteOf(s, ops[0]).value;
        var rest := Writes(t, ops[1..]);
        assert ([w] + rest)[1..] == rest;
        assert Writes(s, ops) == [w] + rest;
        if w.target == target {
          var history := History(rest, target);
          assert History([w] + rest, target) == [w] + history;
          ContinuesBefore(w, history, Stored(s, target));
        } else {
          assert History([w] + rest, target) == History(rest, target);
        }
      }
    }
  }

  lemma NoHistory(start: Option<Aggregate>)
    ensures Continues([], start) && LastLeft([], start) == start
  {
  }

  lemma ContinuesBefore(w: Write, history: seq<Write>, start: Option<Aggregate>)
    requires Continues(history, Some(Left(w))) && Follows(w, start)
    ensures Continues([w] + history, start)
    ensures LastLeft([w] + history, start) == LastLeft(history, Some(Left(w)))
  {
    hide Follows;
    var all := [w] + history;
    forall k | 0 < k < |all| ensures Follows(all[k], Some(Left(all[k - 1]))) {
      assert all[k] == history[k - 1];
      assert k > 1 ==> all[k - 1] == history[k - 2];
    }
  }

  /**
   * Repeating a committed effect under any later valid lease returns the first receipt and changes nothing; other
   * inputs are refused.
   */
  lemma ReplayReturnsReceipt(s: State, ops: seq<Op>, op: Op)
    requires EffectOf(op).Some? && EffectOf(op).value.0 in s.receipts
    requires op.CheckDelivery? ==> op.session !in Run(s, ops).pending
    ensures var t, receipt := Run(s, ops), s.receipts[EffectOf(op).value.0];
      Step(t, op)
      == (t, if HoldsLease(t, op.lease, op.now) && receipt.inputHash == op.inputHash then Effect(receipt) else Refused)
  {
    hide HoldsLease, Run;
    ReceiptsStay(s, ops);
  }

  // ---- invariants over the tables ------------------------------------------------------------------

  predicate SameUnit(j: Job, k: Job) {
    j.scope == k.scope && j.semanticKey == k.semanticKey
  }

  /** Rows are sound, a unit of work has one job, and receipts and deliveries in progress belong to jobs. */
  ghost predicate Inv(s: State) {
    && (forall id :: id in s.jobs ==> RowSound(s.jobs[id]))
    && (forall a, b :: a in s.jobs && b in s.jobs && SameUnit(s.jobs[a], s.jobs[b]) ==> a == b)
    && (forall e :: e in s.receipts ==> e.jobId in s.jobs)
    && (forall x :: x in s.pending ==> Begun(s, s.pending[x].lease))
  }

  /** The lease was granted at some time. */
  predicate Begun(s: State, l: Lease) {
    l.jobId in s.jobs && l.epoch <= s.jobs[l.jobId].leaseEpoch
  }

  /** Only a cancellation that finds no receipt cancels a job. */
  lemma StepCancels(s: State, op: Op, id: Str)
    requires id in s.jobs && s.jobs[id].status != Canceled
    ensures id in Step(s, op).0.jobs
    ensures Step(s, op).0.jobs[id].status == Canceled <==> op.Cancel? && op.jobId == id && Step(s, op).1 == Done
    ensures Step(s, op).0.jobs[id].status == Canceled ==> !HasEffect(s, id)
  {
  }

  /** A new job is queued, unattempted, and the only one for its work. */
  lemma StepAdds(s: State, op: Op, id: Str)
    requires id !in s.jobs && id in Step(s, op).0.jobs
    ensures var j := Step(s, op).0.jobs[id];
      RowSound(j) && op.Enqueue? && forall a :: a in s.jobs ==> !SameUnit(s.jobs[a], j)
    ensures forall b :: b in Step(s, op).0.jobs ==> b in s.jobs || b == id
  {
  }

  /** A new receipt belongs to a job, which was running unless a delivery writes it. */
  lemma StepReceipts(s: State, op: Op, e: EffectId)
    requires e !in s.receipts && e in Step(s, op).0.receipts
    ensures CommitOf(s, op) == Some(e)
    ensures e.jobId in s.jobs && (s.jobs[e.jobId].status == Running || op.WriteDelivery?)
    ensures Step(s, op).0.jobs.Keys == s.jobs.Keys
    ensures Step(s, op).0.jobs[e.jobId].status == Canceled <==> s.jobs[e.jobId].status == Canceled
  {
  }

  /** A delivery in progress is as it was, or has just been checked. */
  lemma StepPending(s: State, op: Op, x: nat)
    ensures x in Step(s, op).0.pending ==>
      if x in s.pending then !Ends(op, x) && Step(s, op).0.pending[x] == s.pending[x]
      else Begins(s, op, x, Step(s, op).0.pending[x]) && Step(s, op).1 == Checked
    ensures x in s.pending && !Ends(op, x) ==> x in Step(s, op).0.pending
  {
  }

  /** The step ends the delivery in this session. */
  predicate Ends(op: Op, session: nat) {
    (op.WriteDelivery? || op.RollBackDelivery?) && op.session == session
  }

  /** The step is a check that passes and begins this delivery. */
  predicate Begins(s: State, op: Op, session: nat, p: Pending) {
    && op.CheckDelivery? && op.session == session && op.lease == p.lease && op.key == p.key
    && HoldsLease(s, p.lease, op.now) && EffectId(p.lease.jobId, p.key) !in s.receipts
  }

  /** Every step keeps the table invariants. */
  lemma StepKeeps(s: State, op: Op)
    requires Inv(s)
    ensures Inv(Step(s, op).0)
  {
    hide Step, RowSound, HasEffect, CommitOf;
    var t := Step(s, op).0;
    StepRows(s, op);
    forall id | id in t.jobs ensures RowSound(t.jobs[id]) {
      if id !in s.jobs { StepAdds(s, op, id); } else { assert RowStep(s.jobs[id], t.jobs[id]); }
    }
    forall a, b | a in t.jobs && b in t.jobs && SameUnit(t.jobs[a], t.jobs[b])
      ensures a == b
    {
      if a in s.jobs { assert RowStep(s.jobs[a], t.jobs[a]); } else { StepAdds(s, op, a); }
      if b in s.jobs { assert RowStep(s.jobs[b], t.jobs[b]); } else { StepAdds(s, op, b); }
    }
    forall e | e in t.receipts ensures e.jobId in t.jobs {
      if e !in s.receipts { StepReceipts(s, op, e); }
    }
    forall x | x in t.pending ensures Begun(t, t.pending[x].lease) {
      StepPending(s, op, x);
      var l := t.pending[x].lease;
      assert l.jobId in s.jobs && l.epoch <= s.jobs[l.jobId].leaseEpoch;
      assert RowStep(s.jobs[l.jobId], t.jobs[l.jobId]);
    }
  }

  /** So does every run. */
  lemma {:induction false} RunKeeps(s: State, ops: seq<Op>)
    requires Inv(s)
    ensures Inv(Run(s, ops))
    decreases |ops|
  {
    hide Step, Inv;
    if ops != [] {
      StepKeeps(s, ops[0]);
      RunKeeps(Step(s, ops[0]).0, ops[1..]);
    }
  }

  // ---- canceled jobs and receipts ------------------------------------------------------------------

  /** No canceled job has a receipt. */
  ghost predicate Clean(s: State) {
    forall e :: e in s.receipts && e.jobId in s.jobs ==> s.jobs[e.jobId].status != Canceled
  }

  /** A delivery writes the receipt of a job that has been canceled since its check. */
  ghost predicate WritesLate(s: State, op: Op) {
    && op.WriteDelivery? && Step(s, op).1.Effect? && op.session in s.pending
    && s.pending[op.session].lease.jobId in s.jobs && s.jobs[s.pending[op.session].lease.jobId].status == Canceled
  }

  ghost predicate SomeLate(s: State, ops: seq<Op>)
    decreases |ops|
  {
    ops != [] && (WritesLate(s, ops[0]) || SomeLate(Step(s, ops[0]).0, ops[1..]))
  }

  lemma ReceiptIsEffect(s: State, e: EffectId)
    requires e in s.receipts
    ensures HasEffect(s, e.jobId)
  {
  }

  lemma WriteOutcome(s: State, op: Op)
    requires op.WriteDelivery?
    ensures CommitOf(s, op).Some? <==> Step(s, op).1.Effect?
    ensures Step(s, op).1.Effect? ==>
      op.session in s.pending && CommitOf(s, op).value.jobId == s.pending[op.session].lease.jobId
  {
  }

  /** A step gives a canceled job a receipt exactly if it is such a late write. */
  lemma StepStaysClean(s: State, op: Op)
    requires Inv(s) && Clean(s)
    ensures Clean(Step(s, op).0) <==> !WritesLate(s, op)
  {
    hide Step, RowSound, HasEffect, CommitOf, HoldsEpoch;
    var t := Step(s, op).0;
    StepCommits(s, op);
    StepRows(s, op);
    if WritesLate(s, op) {
      WriteOutcome(s, op);
      var e := CommitOf(s, op).value;
      StepReceipts(s, op, e);
      assert e in t.receipts && t.jobs[e.jobId].status == Canceled;
    } else {
      forall e | e in t.receipts && e.jobId in t.jobs ensures t.jobs[e.jobId].status != Canceled {
        if e in s.receipts {
          StepCancels(s, op, e.jobId);
          ReceiptIsEffect(s, e);
        } else {
          StepReceipts(s, op, e);
          if op.WriteDelivery? { WriteOutcome(s, op); }
        }
      }
    }
  }

  lemma StepStaysUnclean(s: State, op: Op)
    requires Inv(s) && !Clean(s)
    ensures !Clean(Step(s, op).0)
  {
    hide Step, CommitOf;
    var e :| e in s.receipts && e.jobId in s.jobs && s.jobs[e.jobId].status == Canceled;
    StepCommits(s, op);
    StepRows(s, op);
    assert RowStep(s.jobs[e.jobId], Step(s, op).0.jobs[e.jobId]);
  }

  /** Over any run a canceled job gets a receipt exactly if some delivery writes late. */
  lemma {:induction false} RunStaysClean(s: State, ops: seq<Op>)
    requires Inv(s)
    ensures Clean(Run(s, ops)) <==> Clean(s) && !SomeLate(s, ops)
    decreases |ops|
  {
    hide Step, Inv, Clean, WritesLate;
    if ops != [] {
      StepKeeps(s, ops[0]);
      RunStaysClean(Step(s, ops[0]).0, ops[1..]);
      if Clean(s) { StepStaysClean(s, ops[0]); } else { StepStaysUnclean(s, ops[0]); }
    }
  }

  /** In particular never, if only operations that lock the job row are run. */
  lemma {:induction false} LockedRunsStayClean(s: State, ops: seq<Op>)
    requires Inv(s) && Clean(s) && forall k :: 0 <= k < |ops| ==> !ops[k].WriteDelivery?
    ensures Clean(Run(s, ops))
    decreases |ops|
  {
    hide Step, Inv, Clean;
    if ops != [] {
      StepKeeps(s, ops[0]);
      StepStaysClean(s, ops[0]);
      LockedRunsStayClean(Step(s, ops[0]).0, ops[1..]);
    }
  }

  // ---- what an unlocked delivery can lose ----------------------------------------------------------

  /** The job has been taken over or canceled since the lease was granted. */
  predicate Lost(s: State, l: Lease) {
    l.jobId in s.jobs && (l.epoch < s.jobs[l.jobId].leaseEpoch || s.jobs[l.jobId].status == Canceled)
  }

  /** The step grants a lease on the job, or cancels it. */
  ghost predicate TakesAway(s: State, op: Op, id: Str) {
    || (Step(s, op).1.Granted? && Step(s, op).1.lease.jobId == id)
    || (op.Cancel? && op.jobId == id && Step(s, op).1 == Done)
  }

  /** Some step of the run does. */
  ghost predicate TakenAway(s: State, ops: seq<Op>, id: Str)
    decreases |ops|
  {
    ops != [] && (TakesAway(s, ops[0], id) || TakenAway(Step(s, ops[0]).0, ops[1..], id))
  }

  lemma StepLoses(s: State, op: Op, l: Lease)
    requires Begun(s, l)
    ensures Begun(Step(s, op).0, l)
    ensures Lost(Step(s, op).0, l) <==> Lost(s, l) || TakesAway(s, op, l.jobId)
  {
    hide Step, HasEffect, RowSound;
    StepGrants(s, op, l.jobId);
    StepRows(s, op);
    var j, k := s.jobs[l.jobId], Step(s, op).0.jobs[l.jobId];
    assert RowStep(j, k);
    if j.status == Canceled {
      assert k == j;
    } else {
      StepCancels(s, op, l.jobId);
    }
  }

  /** A job is lost over a run exactly if it was lost before or some step takes it away. */
  lemma {:induction false} RunLoses(s: State, ops: seq<Op>, l: Lease)
    requires Begun(s, l)
    ensures Begun(Run(s, ops), l)
    ensures Lost(Run(s, ops), l) <==> Lost(s, l) || TakenAway(s, ops, l.jobId)
    decreases |ops|
  {
    hide Step, Lost, TakesAway, Begun;
    if ops != [] {
      StepLoses(s, ops[0], l);
      RunLoses(Step(s, ops[0]).0, ops[1..], l);
    }
  }

  lemma {:induction false} PendingStays(s: State, ops: seq<Op>, x: nat)
    requires x in s.pending && forall k :: 0 <= k < |ops| ==> !Ends(ops[k], x)
    ensures x in Run(s, ops).pending && Run(s, ops).pending[x] == s.pending[x]
    decreases |ops|
  {
    hide Step, Ends;
    if ops != [] {
      StepPending(s, ops[0], x);
      PendingStays(Step(s, ops[0]).0, ops[1..], x);
    }
  }

  /** A write that takes effect leaves its receipt, whatever has become of the job. */
  lemma WriteTakesEffect(t: State, write: Op)
    requires write.WriteDelivery? && write.session in t.pending && write.recorded.Some?
    requires t.pending[write.session].lease.jobId in t.jobs
    ensures var p, r := t.pending[write.session], Step(t, write); var id := EffectId(p.lease.jobId, p.key);
      && (r.1.Effect? <==> id !in t.receipts)
      && (r.1.Effect? ==> id in r.0.receipts && r.0.receipts[id] == r.1.receipt)
      && (Lost(r.0, p.lease) <==> Lost(t, p.lease))
      && (Lost(t, p.lease) ==> r.0.jobs == t.jobs)
  {
    hide Backoff;
    if Lost(t, t.pending[write.session].lease) {
      assert Step(t, write).0.jobs[t.pending[write.session].lease.jobId]
        == t.jobs[t.pending[write.session].lease.jobId];
    }
  }

  /**
   * A delivery that was checked, and after other steps writes its receipt, does so on a job it has lost exactly if one
   * of these steps granted the job anew or canceled it. The write then takes effect all the same and leaves the job row
   * alone.
   */
  lemma DeliveryOutcome(s: State, check: Op, ops: seq<Op>, write: Op)
    requires Inv(s) && check.CheckDelivery? && write.WriteDelivery? && write.session == check.session
    requires Step(s, check).1 == Checked && write.recorded.Some?
    requires forall k :: 0 <= k < |ops| ==> !Ends(ops[k], check.session)
    ensures var begun := Step(s, check).0; var t := Run(begun, ops); var end := Step(t, write);
      var id := EffectId(check.lease.jobId, check.key);
      && (end.1.Effect? <==> id !in t.receipts)
      && (end.1.Effect? ==> id in end.0.receipts)
      && (Lost(end.0, check.lease) <==> TakenAway(begun, ops, check.lease.jobId))
      && (Lost(end.0, check.lease) ==> end.0.jobs == t.jobs)
  {
    hide Step, Run, Lost, TakenAway, HoldsLease;
    CheckBegins(s, check);
    var begun := Step(s, check).0;
    PendingStays(begun, ops, check.session);
    RunLoses(begun, ops, check.lease);
    WriteTakesEffect(Run(begun, ops), write);
  }

  lemma CheckBegins(s: State, check: Op)
    requires check.CheckDelivery? && Step(s, check).1 == Checked
    ensures var t := Step(s, check).0;
      && check.session in t.pending && t.pending[check.session].lease == check.lease
      && t.pending[check.session].key == check.key
      && Begun(t, check.lease) && !Lost(t, check.lease) && EffectId(check.lease.jobId, check.key) !in t.receipts
  {
  }

  /** If nothing can come between the two halves, a delivery never writes on a job it has lost. */
  lemma SerializedDelivery(s: State, check: Op, write: Op)
    requires Inv(s) && check.CheckDelivery? && write.WriteDelivery? && write.session == check.session
    requires Step(s, check).1 == Checked && write.recorded.Some?
    ensures Step(Step(s, check).0, write).1.Effect? && !Lost(Step(Step(s, check).0, write).0, check.lease)
  {
    hide Step, Lost;
    DeliveryOutcome(s, check, [], write);
    CheckBegins(s, check);
  }

  /** Step `i` of the run is the check of the delivery that is in progress in session `x` at the end. */
  ghost predicate CheckedAt(s: State, ops: seq<Op>, i: nat, x: nat)
    requires i < |ops| && x in Run(s, ops).pending
  {
    var before, begun := Run(s, ops[..i]), Run(s, ops[..i + 1]);
    && Begins(before, ops[i], x, Run(s, ops).pending[x]) && Step(before, ops[i]) == (begun, Checked)
    && Run(s, ops) == Run(begun, ops[i + 1..])
    && forall k :: i < k < |ops| ==> !Ends(ops[k], x)
  }

  /** A run of any prefix begins with the first step. */
  lemma RunPrefix(s: State, ops: seq<Op>, i: nat)
    requires 0 < i <= |ops|
    ensures Run(s, ops[..i]) == Run(Step(s, ops[0]).0, ops[1..][..i - 1])
  {
    hide Step;
    assert ops[..i][1..] == ops[1..][..i - 1] && ops[..i][0] == ops[0];
  }

  lemma CheckedFirst(s: State, ops: seq<Op>, x: nat)
    requires ops != [] && x !in s.pending && x in Step(s, ops[0]).0.pending
    requires x in Run(s, ops).pending && Run(s, ops).pending[x] == Step(s, ops[0]).0.pending[x]
    requires forall k :: 0 < k < |ops| ==> !Ends(ops[k], x)
    ensures CheckedAt(s, ops, 0, x)
  {
    hide Step, Begins, Ends;
    StepPending(s, ops[0], x);
    RunPrefix(s, ops, 1);
  }

  lemma CheckedLater(s: State, ops: seq<Op>, i: nat, x: nat)
    requires 0 < i < |ops| && x in Run(s, ops).pending && Run(s, ops) == Run(Step(s, ops[0]).0, ops[1..])
    requires CheckedAt(Step(s, ops[0]).0, ops[1..], i - 1, x)
    ensures CheckedAt(s, ops, i, x)
  {
    hide Run, Step, Begins, Ends;
    RunPrefix(s, ops, i);
    RunPrefix(s, ops, i + 1);
    assert ops[i + 1..] == ops[1..][i..];
    forall k | i < k < |ops| ensures !Ends(ops[k], x) { assert ops[k] == ops[1..][k - 1]; }
  }

  /** The delivery in session `x` has been in progress all along. */
  ghost predicate PendingAllAlong(s: State, ops: seq<Op>, x: nat) {
    && x in s.pending && (forall k :: 0 <= k < |ops| ==> !Ends(ops[k], x))
    && x in Run(s, ops).pending && Run(s, ops).pending[x] == s.pending[x]
  }

  /** A delivery in progress was checked at some step of the run and not ended since, or has been there all along. */
  lemma {:induction false} PendingWasChecked(s: State, ops: seq<Op>, x: nat)
    requires x in Run(s, ops).pending
    ensures PendingAllAlong(s, ops, x) || exists i :: 0 <= i < |ops| && CheckedAt(s, ops, i, x)
    decreases |ops|
  {
    hide Step, Ends, CheckedAt;
    if ops != [] {
      var next, rest := Step(s, ops[0]).0, ops[1..];
      PendingWasChecked(next, rest, x);
      if PendingAllAlong(next, rest, x) {
        StepPending(s, ops[0], x);
        forall k | 0 < k < |ops| ensures !Ends(ops[k], x) { assert ops[k] == rest[k - 1]; }
        if x !in s.pending { CheckedFirst(s, ops, x); }
      } else {
        var j :| 0 <= j < |rest| && CheckedAt(next, rest, j, x);
        CheckedLater(s, ops, j + 1, x);
      }
    }
  }

  /**
   * Step `i` of the run is the check this write goes back to, and the job is lost exactly if it was granted anew or
   * canceled since.
   */
  ghost predicate WritesFor(s: State, ops: seq<Op>, i: nat, write: Op)
    requires i < |ops| && write.WriteDelivery? && write.session in Run(s, ops).pending
  {
    var check := ops[i];
    && check.CheckDelivery? && check.session == write.session
    && HoldsLease(Run(s, ops[..i]), check.lease, check.now)
    && Run(s, ops).pending[write.session].lease == check.lease
    && (Lost(Run(s, ops), check.lease) <==> TakenAway(Run(s, ops[..i + 1]), ops[i + 1..], check.lease.jobId))
  }

  /**
   * In any run that starts without deliveries in progress, every delivery write that finds its delivery pending goes
   * back to a check that passed.
   */
  lemma LateWritesExplained(s: State, ops: seq<Op>, write: Op)
    requires Inv(s) && s.pending == map[]
    requires write.WriteDelivery? && write.session in Run(s, ops).pending
    ensures exists i :: 0 <= i < |ops| && WritesFor(s, ops, i, write)
  {
    hide Run, Step, Lost, TakenAway, HoldsLease, Inv;
    PendingWasChecked(s, ops, write.session);
    var i :| 0 <= i < |ops| && CheckedAt(s, ops, i, write.session);
    CheckBegins(Run(s, ops[..i]), ops[i]);
    RunLoses(Run(s, ops[..i + 1]), ops[i + 1..], ops[i].lease);
    assert WritesFor(s, ops, i, write);
  }

  // ---- the run that loses a job and writes all the same ---------------------------------------------

  const JOB: Str := [1]
  const LEASE_A: Lease := Lease(JOB, [2], 1)
  const LEASE_B: Lease := Lease(JOB, [3], 2)

  function OneJob(status: Status, attempts: nat, owner: Option<Str>, epoch: nat, expires: Option<int>): map<Str, Job> {
    map[JOB := Job([], [], [], [], status, 0, 0, attempts, 3, owner, epoch, expires, 0)]
  }

  const CHECK_A: Op := CheckDelivery(0, LEASE_A, [4], [5], Unknown, false, [], 5)
  const CLAIM_B: Op := Claim([], [3], None, false, {}, 10, 11)
  const CANCEL_B: Op := Cancel([], JOB, Some(LEASE_B), 12)
  const WRITE_A: Op := WriteDelivery(0, Some(1), 13)

  const PENDING_A: Pending := Pending(LEASE_A, [4], [5], Unknown, false, [], 1, 3)

  const HELD_BY_A: State := State(OneJob(Running, 1, Some([2]), 1, Some(10)), map[], map[], map[])
  const CHECKED_BY_A: State := HELD_BY_A.(pending := map[0 := PENDING_A])
  const HELD_BY_B: State := CHECKED_BY_A.(jobs := OneJob(Running, 2, Some([3]), 2, Some(21)))
  const CANCELED_BY_B: State := HELD_BY_B.(jobs := OneJob(Canceled, 2, None, 2, None))
  const WRITTEN_BY_A: State :=
    CANCELED_BY_B.(receipts := map[EffectId(JOB, [4]) := Receipt([5], 2, [])], pending := map[])

  /**
   * Owner A passes the check and its lease runs out; B claims the job and cancels it; then A writes its receipt and
   * returns normally.
   */
  lemma LateReceiptWitness()
    ensures Inv(HELD_BY_A) && Clean(HELD_BY_A)
    ensures Run(HELD_BY_A, [CHECK_A, CLAIM_B, CANCEL_B]) == CANCELED_BY_B
    ensures Step(CANCELED_BY_B, WRITE_A) == (WRITTEN_BY_A, Effect(Receipt([5], 2, [])))
    ensures !Clean(WRITTEN_BY_A)
  {
    hide Step, Inv, Clean;
    WitnessStates();
    ChecksA();
    ClaimsOnly(CHECKED_BY_A);
    CancelsB();
    WritesA();
    RunThree(HELD_BY_A, CHECK_A, CLAIM_B, CANCEL_B);
  }

  lemma WitnessStates()
    ensures Inv(HELD_BY_A) && Clean(HELD_BY_A) && !Clean(WRITTEN_BY_A)
  {
    assert EffectId(JOB, [4]) in WRITTEN_BY_A.receipts && JOB in WRITTEN_BY_A.jobs;
  }

  lemma ChecksA()
    ensures Step(HELD_BY_A, CHECK_A) == (CHECKED_BY_A, Checked)
  {
  }

  lemma CancelsB()
    ensures Step(HELD_BY_B, CANCEL_B) == (CANCELED_BY_B, Done)
  {
    assert HELD_BY_B.jobs[JOB := Release(HELD_BY_B.jobs[JOB], Canceled)] == CANCELED_BY_B.jobs;
    assert HoldsLease(HELD_BY_B, LEASE_B, 12) && !HasEffect(HELD_BY_B, JOB);
  }

  lemma WritesA()
    ensures Step(CANCELED_BY_B, WRITE_A) == (WRITTEN_BY_A, Effect(Receipt([5], 2, [])))
  {
    assert DeliveredRow(CANCELED_BY_B.jobs[JOB], PENDING_A, 13) == CANCELED_BY_B.jobs[JOB];
    assert CANCELED_BY_B.jobs[JOB := CANCELED_BY_B.jobs[JOB]] == WRITTEN_BY_A.jobs;
    assert CANCELED_BY_B.pending - {0} == map[];
  }

  lemma ClaimsOnly(a: State)
    requires a.jobs == OneJob(Running, 1, Some([2]), 1, Some(10))
    ensures Step(a, CLAIM_B) == (a.(jobs := OneJob(Running, 2, Some([3]), 2, Some(21))), Granted(LEASE_B))
  {
    assert IsFirst(a, CLAIM_B, JOB);
    assert forall id :: IsFirst(a, CLAIM_B, id) ==> id == JOB;
    var j := Grant(a.jobs[JOB], CLAIM_B);
    assert BuryExhausted(a, CLAIM_B)[JOB := j] == OneJob(Running, 2, Some([3]), 2, Some(21));
  }

  lemma RunThree(s: State, x: Op, y: Op, z: Op)
    ensures Run(s, [x, y, z]) == Step(Step(Step(s, x).0, y).0, z).0
  {
    hide Step;
    var three, two, one := [x, y, z], [y, z], [z];
    assert three[1..] == two && two[1..] == one && one[1..] == [];
    assert Run(s, three) == Run(Step(s, x).0, two) == Run(Step(Step(s, x).0, y).0, one);
  }
}
