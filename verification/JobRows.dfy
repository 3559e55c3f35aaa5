/** What a step of the job queue makes of a job, told by the status the job gets and not by the operation. */
module JobRows {
  import opened Ordering
  import opened Text
  import opened Worker

  /** The row is leased to the owner, under the epoch, and not run out. */
  predicate Leased(j: Job, l: Lease, now: int) {
    && j.status == Running && j.leaseOwner == Some(l.owner) && j.leaseEpoch == l.epoch
    && j.leaseExpiresAt.Some? && now < j.leaseExpiresAt.value
  }

  /** The step acts on the job under a lease that holds. */
  predicate ActsOn(j: Job, id: Str, l: Lease, now: int) {
    l.jobId == id && Leased(j, l, now)
  }

  predicate OfKind(j: Job, op: Op)
    requires op.Claim?
  {
    j.scope == op.scope && (op.onlyType == None || op.onlyType == Some(j.jobType))
  }

  /** Nobody holds the row: it waits, or its lease has run out. */
  predicate Idle(j: Job, now: int) {
    (j.status == Queued || j.status == Deferred || j.status == Running)
    && match j.leaseExpiresAt case None => true case Some(t) => t <= now
  }

  predicate Claimable(s: State, op: Op, id: Str)
    requires op.Claim?
  {
    && id in s.jobs && id !in op.locked
    && var j := s.jobs[id];
      OfKind(j, op) && Idle(j, op.now) && j.availableAt <= op.now && j.attempts < j.maxAttempts
  }

  /** The order of claims: urgent first, then what has been available longer, then what is older. */
  predicate Precedes(a: Str, x: Job, b: Str, y: Job) {
    || x.priority > y.priority
    || (x.priority == y.priority &&
      (|| x.availableAt < y.availableAt
       || (x.availableAt == y.availableAt &&
         (x.createdAt < y.createdAt || (x.createdAt == y.createdAt && StrLess(a, b))))))
  }

  ghost predicate NextInLine(s: State, op: Op, id: Str)
    requires op.Claim?
  {
    && Claimable(s, op, id)
    && forall other :: Claimable(s, op, other) && other != id ==> Precedes(id, s.jobs[id], other, s.jobs[other])
  }

  /** A due job without attempts left: it waits, or its lease has run out. */
  predicate UsedUp(s: State, op: Op, id: Str)
    requires op.Claim? && id in s.jobs
  {
    var j := s.jobs[id];
    && id !in op.locked && OfKind(j, op) && j.attempts >= j.maxAttempts
    && (if j.status == Running then j.leaseExpiresAt.Some? && j.leaseExpiresAt.value <= op.now
        else (j.status == Queued || j.status == Deferred) && j.availableAt <= op.now)
  }

  /** A claim that must succeed and does not is rolled back. */
  ghost predicate Kept(s: State, op: Op)
    requires op.Claim?
  {
    !op.insist || exists id :: Claimable(s, op, id)
  }

  /** The cancellation goes through: of its own job, without a receipt, under its lease or when nobody holds one. */
  ghost predicate Cancels(s: State, op: Op, id: Str)
    requires op.Cancel? && id in s.jobs
  {
    var j := s.jobs[id];
    && op.jobId == id && j.scope == op.scope && j.status in {Queued, Running, Deferred}
    && (forall e :: e in s.receipts ==> e.jobId != id)
    && match op.byLease
      case Some(l) => ActsOn(j, id, l, op.now)
      case None => j.status == Running ==> j.leaseExpiresAt.Some? && j.leaseExpiresAt.value <= op.now
  }

  /** The delivery writes its receipt, on a job that still has the epoch it was checked under. */
  predicate DeliversOn(s: State, op: Op, id: Str)
    requires op.WriteDelivery? && id in s.jobs
  {
    && op.session in s.pending && op.recorded.Some?
    && var p := s.pending[op.session];
      var j := s.jobs[id];
      && p.lease.jobId == id && EffectId(id, p.key) !in s.receipts
      && j.status == Running && j.leaseOwner == Some(p.lease.owner) && j.leaseEpoch == p.lease.epoch
  }

  /** The status a step gives the job, if it gives it one. */
  ghost function NewStatus(s: State, op: Op, id: Str): Option<Status>
    requires id in s.jobs
  {
    var j := s.jobs[id];
    match op
    case Claim(_, _, _, _, _, _, _) =>
      if NextInLine(s, op, id) then Some(Running)
      else if UsedUp(s, op, id) && Kept(s, op) then Some(DeadLetter)
      else None
    case Complete(l, now) => if ActsOn(j, id, l, now) then Some(Succeeded) else None
    case Fail(l, retryable, _, now) =>
      if !ActsOn(j, id, l, now) then None
      else if !retryable then Some(Failed)
      else if j.attempts >= j.maxAttempts then Some(DeadLetter)
      else Some(Queued)
    case Defer(l, until, now) => if ActsOn(j, id, l, now) && until > now then Some(Deferred) else None
    case Cancel(_, _, _, _) => if Cancels(s, op, id) then Some(Canceled) else None
    case WriteDelivery(session, _, _) =>
      if !DeliversOn(s, op, id) then None
      else
        var p := s.pending[session];
        if p.delivery.Delivered? then Some(Succeeded)
        else if p.delivery.Undelivered? && p.retryable && p.attempts < p.maxAttempts then Some(Queued)
        else Some(Failed)
    case _ => None
  }

  /** The seconds a failed job waits, by its attempts: doubled each time, and at most an hour. */
  const DELAYS: seq<nat> := [1, 1, 2, 4, 8, 16, 32, 64, 128, 256, 512, 1024, 2048]

  function Delay(attempts: nat): nat {
    if attempts < |DELAYS| then DELAYS[attempts] else 3600
  }

  /** When a job that gets the status is available again. */
  function NewTime(j: Job, op: Op, status: Status): int {
    match op
    case Fail(_, _, Some(t), _) => if status == Queued then t else j.availableAt
    case Fail(_, _, None, now) => if status == Queued then now + Delay(j.attempts) else j.availableAt
    case Defer(_, until, _) => until
    case WriteDelivery(_, _, now) => if status == Queued then now + 1 else j.availableAt
    case _ => j.availableAt
  }

  /** The row a step makes of the job: only a claim leases it, and every other new status takes the lease away. */
  ghost function NewRow(s: State, op: Op, id: Str): Job
    requires id in s.jobs
  {
    var j := s.jobs[id];
    match NewStatus(s, op, id)
    case None =>
      if op.Heartbeat? && ActsOn(j, id, op.lease, op.now) then j.(leaseExpiresAt := Some(op.now + op.duration)) else j
    case Some(Running) =>
      if !op.Claim? then j
      else
        j.(status := Running, attempts := j.attempts + 1, leaseEpoch := j.leaseEpoch + 1,
           leaseOwner := Some(op.owner), leaseExpiresAt := Some(op.now + op.duration))
    case Some(status) =>
      j.(status := status, leaseOwner := None, leaseExpiresAt := None, availableAt := NewTime(j, op, status))
  }

  lemma {:induction false} PowerGrows(n: nat)
    requires n >= 12
    ensures Power(n) >= 4096
  {
    if n > 12 { PowerGrows(n - 1); }
  }

  lemma DelayDoubles(attempts: nat)
    ensures Backoff(attempts) == Delay(attempts)
  {
    assert Power(3) == 8 && Power(6) == 64 && Power(9) == 512 && Power(11) == 2048;
    if attempts > 12 { PowerGrows(attempts - 1); }
  }

  lemma ClaimSpelled(s: State, op: Op)
    requires op.Claim?
    ensures forall id :: IsCandidate(s, op, id) <==> Claimable(s, op, id)
    ensures forall id :: IsFirst(s, op, id) <==> NextInLine(s, op, id)
    ensures forall id :: id in s.jobs ==> (Exhausted(s.jobs[id], op) && id !in op.locked <==> UsedUp(s, op, id))
  {
    forall id ensures IsCandidate(s, op, id) <==> Claimable(s, op, id) {}
    forall a, x: Job, b, y: Job ensures Before(a, x, b, y) <==> Precedes(a, x, b, y) {}
  }

  lemma LeaseSpelled(s: State, l: Lease, now: int)
    ensures HoldsLease(s, l, now) <==> l.jobId in s.jobs && Leased(s.jobs[l.jobId], l, now)
  {
  }

  lemma OwnerSpelled(s: State, op: Op, id: Str)
    requires ByOwner(op) && id in s.jobs
    ensures Step(s, op).0.jobs.Keys == s.jobs.Keys && Step(s, op).0.jobs[id] == NewRow(s, op, id)
  {
    LeaseSpelled(s, op.lease, op.now);
    DelayDoubles(s.jobs[id].attempts);
    hide Backoff, Delay, HoldsLease, Leased;
  }

  lemma OtherSpelled(s: State, op: Op, id: Str)
    requires !ByOwner(op) && !op.Claim? && id in s.jobs
    ensures id in Step(s, op).0.jobs && Step(s, op).0.jobs[id] == NewRow(s, op, id)
  {
  }

  lemma OneIsNext(s: State, op: Op, a: Str, b: Str)
    requires op.Claim? && NextInLine(s, op, a) && NextInLine(s, op, b)
    ensures a == b
  {
    hide StrLess, Claimable;
    StrOrder();
  }

  lemma ClaimedSpelled(s: State, op: Op, id: Str)
    requires op.Claim? && id in s.jobs
    ensures id in Step(s, op).0.jobs && Step(s, op).0.jobs[id] == NewRow(s, op, id)
  {
    hide IsCandidate, Claimable, IsFirst, NextInLine, Exhausted, UsedUp;
    ClaimSpelled(s, op);
    ClaimTakesFirst(s, op);
    forall a, b | NextInLine(s, op, a) && NextInLine(s, op, b) ensures a == b { OneIsNext(s, op, a, b); }
    forall a | NextInLine(s, op, a) ensures Claimable(s, op, a) { NextIsClaimable(s, op, a); }
  }

  lemma NextIsClaimable(s: State, op: Op, id: Str)
    requires op.Claim? && NextInLine(s, op, id)
    ensures Claimable(s, op, id) && id in s.jobs
  {
  }

  /** A step makes of every job the row that goes with its new status. */
  lemma RowSpelled(s: State, op: Op, id: Str)
    requires id in s.jobs
    ensures id in Step(s, op).0.jobs && Step(s, op).0.jobs[id] == NewRow(s, op, id)
  {
    hide Step, NewRow;
    if ByOwner(op) {
      OwnerSpelled(s, op, id);
    } else if op.Claim? {
      ClaimedSpelled(s, op, id);
    } else {
      OtherSpelled(s, op, id);
    }
  }

  /** Who succeeds: an owner under its lease, a cancellation that finds no receipt, a claim with a job to take. */
  lemma OutcomeSpelled(s: State, op: Op)
    ensures ByOwner(op) ==>
      Step(s, op).1 ==
        (if && op.lease.jobId in s.jobs && Leased(s.jobs[op.lease.jobId], op.lease, op.now)
            && (op.Defer? ==> op.until > op.now) then Done else Refused)
    ensures op.Cancel? ==> Step(s, op).1 == if op.jobId in s.jobs && Cancels(s, op, op.jobId) then Done else Refused
    ensures op.Claim? ==>
      && (forall id :: NextInLine(s, op, id) ==>
            Step(s, op).1 == Granted(Lease(id, op.owner, s.jobs[id].leaseEpoch + 1)))
      && ((forall id :: !Claimable(s, op, id)) ==> Step(s, op).1 == Refused)
  {
    if op.Claim? { ClaimOutcome(s, op); }
  }

  lemma ClaimOutcome(s: State, op: Op)
    requires op.Claim?
    ensures forall id :: NextInLine(s, op, id) ==>
      Step(s, op).1 == Granted(Lease(id, op.owner, s.jobs[id].leaseEpoch + 1))
    ensures (forall id :: !Claimable(s, op, id)) ==> Step(s, op).1 == Refused
  {
    hide IsCandidate, Claimable, IsFirst, NextInLine, Exhausted, UsedUp;
    ClaimSpelled(s, op);
    ClaimTakesFirst(s, op);
    forall a, b | NextInLine(s, op, a) && NextInLine(s, op, b) ensures a == b { OneIsNext(s, op, a, b); }
    forall a | NextInLine(s, op, a) ensures Claimable(s, op, a) { NextIsClaimable(s, op, a); }
  }

  /**
   * A request adds a job exactly if it allows attempts and neither its work nor its identity is taken; a repeated
   * request for the same work is done already.
   */
  lemma EnqueueSpelled(s: State, op: Op)
    requires op.Enqueue?
    ensures var taken := exists id :: id in s.jobs && s.jobs[id].scope == op.scope
                                      && s.jobs[id].semanticKey == op.semanticKey;
      var same := exists id :: id in s.jobs && s.jobs[id].scope == op.scope && s.jobs[id].semanticKey == op.semanticKey
                               && s.jobs[id].jobType == op.jobType && s.jobs[id].payloadHash == op.payloadHash;
      var added := op.maxAttempts > 0 && !taken && op.jobId !in s.jobs;
      && Step(s, op).1 == (if added || (op.maxAttempts > 0 && same) then Done else Refused)
      && Step(s, op).0 ==
        if !added then s
        else
          var start := if op.availableAt.Some? then op.availableAt.value else op.now;
          s.(jobs := s.jobs[op.jobId := Job(
            op.scope, op.jobType, op.semanticKey, op.payloadHash, Queued, op.priority, start, 0, op.maxAttempts,
            None, 0, None, op.now)])
  {
  }

  /**
   * A delivery begins under a held lease, for an effect without a receipt, and remembers what it is to commit and the
   * attempts of the row.
   */
  lemma CheckSpelled(s: State, op: Op)
    requires op.CheckDelivery?
    ensures var (id, job) := (EffectId(op.lease.jobId, op.key), op.lease.jobId);
      var free := op.session !in s.pending && job in s.jobs && Leased(s.jobs[job], op.lease, op.now);
      && (Step(s, op).1 == Checked <==> free && id !in s.receipts)
      && Step(s, op).0 ==
        if Step(s, op).1 != Checked then s
        else
          s.(pending := s.pending[op.session := Pending(
            op.lease, op.key, op.inputHash, op.delivery, op.retryable, op.result,
            s.jobs[job].attempts, s.jobs[job].maxAttempts)])
  {
  }

  /**
   * A delivery that is pending writes its receipt exactly if the effect still has none and its status row is there,
   * with the larger of the two attempt counts; it is over either way.
   */
  lemma WriteSpelled(s: State, op: Op)
    requires op.WriteDelivery? && op.session in s.pending && s.pending[op.session].lease.jobId in s.jobs
    ensures var p := s.pending[op.session]; var id := EffectId(p.lease.jobId, p.key);
      && (Step(s, op).1.Effect? <==> id !in s.receipts && op.recorded.Some?)
      && (Step(s, op).1.Effect? ==>
        && Step(s, op).1.receipt.inputHash == p.inputHash && Step(s, op).1.receipt.result == p.result
        && Step(s, op).1.receipt.revision >= op.recorded.value + 1 && Step(s, op).1.receipt.revision >= p.attempts
        && Step(s, op).1.receipt.revision in {op.recorded.value + 1, p.attempts}
        && Step(s, op).0.receipts == s.receipts[id := Step(s, op).1.receipt])
      && Step(s, op).0.pending == s.pending - {op.session} && Step(s, op).0.aggregates == s.aggregates
  {
    hide DeliveredRow;
  }

  // ---- why a job has ended -------------------------------------------------------------------------

  /** Step `k` of the run gives the job, which was still alive, its last status, and the row stays as it leaves it. */
  ghost predicate EndedAt(s: State, ops: seq<Op>, id: Str, k: nat)
    requires id in s.jobs && k < |ops|
  {
    && id in Run(s, ops[..k]).jobs && id in Run(s, ops).jobs
    && var before := Run(s, ops[..k]); var end := Run(s, ops).jobs[id];
      && !Terminal(before.jobs[id].status)
      && NewStatus(before, ops[k], id) == Some(end.status) && NewRow(before, ops[k], id) == end
  }

  /** A job that has ended in a run was ended by one step of it, in the way its status says. */
  lemma {:induction false} EndHasCause(s: State, ops: seq<Op>, id: Str)
    requires id in s.jobs && !Terminal(s.jobs[id].status)
    requires id in Run(s, ops).jobs && Terminal(Run(s, ops).jobs[id].status)
    ensures exists k :: 0 <= k < |ops| && EndedAt(s, ops, id, k)
    decreases |ops|
  {
    hide Step, NewStatus, NewRow, EndedAt;
    assert ops != [];
    var t, rest := Step(s, ops[0]).0, ops[1..];
    RowSpelled(s, ops[0], id);
    if Terminal(t.jobs[id].status) {
      EndedFirst(s, ops, id);
    } else {
      EndHasCause(t, rest, id);
      var k :| 0 <= k < |rest| && EndedAt(t, rest, id, k);
      EndedLater(s, ops, id, k);
    }
  }

  lemma EndedFirst(s: State, ops: seq<Op>, id: Str)
    requires ops != [] && id in s.jobs && !Terminal(s.jobs[id].status)
    requires id in Step(s, ops[0]).0.jobs && Terminal(Step(s, ops[0]).0.jobs[id].status)
    ensures EndedAt(s, ops, id, 0)
  {
    hide Step, NewStatus;
    RowSpelled(s, ops[0], id);
    RunRows(Step(s, ops[0]).0, ops[1..], id);
  }

  lemma EndedLater(s: State, ops: seq<Op>, id: Str, k: nat)
    requires ops != [] && id in s.jobs && id in Step(s, ops[0]).0.jobs && k < |ops| - 1
    requires EndedAt(Step(s, ops[0]).0, ops[1..], id, k)
    ensures EndedAt(s, ops, id, k + 1)
  {
    hide Step, NewStatus, NewRow;
    RunPrefix(s, ops, k + 1);
  }
}
