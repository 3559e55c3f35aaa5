/** Worker health from the job table, and which status axes may be ready. */
module Health {
  import opened Ordering
  import opened Worker

  datatype Counts = Counts(jobs: nat, failed: nat, deadLetter: nat, running: nat, expiredRunning: nat)

  predicate Expired(j: Job, now: int) {
    j.status == Running && (j.leaseExpiresAt.None? || j.leaseExpiresAt.value <= now)
  }

  /** `COUNT(*) FILTER (WHERE p)` */
  function CountIf(jobs: seq<Job>, p: Job -> bool): nat {
    if jobs == [] then 0 else CountIf(jobs[..|jobs| - 1], p) + (if p(jobs[|jobs| - 1]) then 1 else 0)
  }

  function HasStatus(status: Status): Job -> bool {
    (j: Job) => j.status == status
  }

  function ExpiredAt(now: int): Job -> bool {
    (j: Job) => Expired(j, now)
  }

  /** `_WORKER_HEALTH_SQL`: every aggregate over the same rows and the same clock reading. */
  function WorkerCounts(jobs: seq<Job>, now: int): Counts {
    Counts(|jobs|, CountIf(jobs, HasStatus(Failed)), CountIf(jobs, HasStatus(DeadLetter)),
      CountIf(jobs, HasStatus(Running)), CountIf(jobs, ExpiredAt(now)))
  }

  datatype AxisState = Ready | Stale | Error | Unavailable

  /** `_worker_axis` */
  function WorkerAxis(c: Counts): AxisState {
    if c.failed + c.deadLetter != 0 then Error
    else if c.expiredRunning != 0 then Stale
    else Ready
  }

  function Where(jobs: seq<Job>, p: Job -> bool): set<nat> {
    set i: nat | i < |jobs| && p(jobs[i])
  }

  lemma WhereLast(jobs: seq<Job>, p: Job -> bool)
    requires jobs != []
    ensures var n := |jobs| - 1;
      n !in Where(jobs[..n], p) && Where(jobs, p) == Where(jobs[..n], p) + if p(jobs[n]) then {n} else {}
  {
  }

  lemma {:induction false} CountMeaning(jobs: seq<Job>, p: Job -> bool)
    ensures CountIf(jobs, p) == |Where(jobs, p)|
  {
    if jobs != [] {
      WhereLast(jobs, p);
      CountMeaning(jobs[..|jobs| - 1], p);
      hide Where;
    }
  }

  /** The counts are the numbers of all, failed, dead, running and expired rows, at one clock reading. */
  lemma CountsMeaning(jobs: seq<Job>, now: int)
    ensures WorkerCounts(jobs, now) == Counts(
      |jobs|,
      |set i: nat | i < |jobs| && jobs[i].status == Failed|,
      |set i: nat | i < |jobs| && jobs[i].status == DeadLetter|,
      |set i: nat | i < |jobs| && jobs[i].status == Running|,
      |set i: nat | i < |jobs| && jobs[i].status == Running
        && (jobs[i].leaseExpiresAt == None || jobs[i].leaseExpiresAt.value <= now)|)
  {
    CountMeaning(jobs, HasStatus(Failed));
    CountMeaning(jobs, HasStatus(DeadLetter));
    CountMeaning(jobs, HasStatus(Running));
    CountMeaning(jobs, ExpiredAt(now));
    StatusSet(jobs, Failed);
    StatusSet(jobs, DeadLetter);
    StatusSet(jobs, Running);
    assert Where(jobs, ExpiredAt(now)) ==
      set i: nat | i < |jobs| && jobs[i].status == Running
        && (jobs[i].leaseExpiresAt == None || jobs[i].leaseExpiresAt.value <= now);
  }

  lemma StatusSet(jobs: seq<Job>, status: Status)
    ensures Where(jobs, HasStatus(status)) ==
      set i: nat | i < |jobs| && jobs[i].status == status
  {
  }

  /** Jobs that satisfy disjoint conditions are counted apart. */
  lemma {:induction false} DisjointCounts(jobs: seq<Job>, now: int)
    ensures var c := WorkerCounts(jobs, now);
      c.expiredRunning <= c.running && c.failed + c.deadLetter + c.running <= c.jobs
  {
    if jobs != [] { DisjointCounts(jobs[..|jobs| - 1], now); }
  }

  lemma {:induction false} CountPositive(jobs: seq<Job>, p: Job -> bool)
    ensures CountIf(jobs, p) > 0 <==> exists j :: j in jobs && p(j)
  {
    if jobs != [] {
      var init, last := jobs[..|jobs| - 1], jobs[|jobs| - 1];
      CountPositive(init, p);
      assert jobs == init + [last];
      assert forall j :: j in jobs <==> j in init || j == last;
    }
  }

  /** The verdict in terms of the rows: a terminal failure first, then an expired lease, then readiness. */
  lemma WorkerVerdict(jobs: seq<Job>, now: int)
    ensures var state := WorkerAxis(WorkerCounts(jobs, now));
      && (state == Error <==> exists j :: j in jobs && (j.status == Failed || j.status == DeadLetter))
      && (state == Stale <==>
        && (forall j :: j in jobs ==> j.status != Failed && j.status != DeadLetter)
        && exists j :: j in jobs && j.status == Running && (j.leaseExpiresAt == None || j.leaseExpiresAt.value <= now))
      && (state == Ready <==>
        forall j :: j in jobs ==>
          && j.status != Failed && j.status != DeadLetter
          && (j.status == Running ==> j.leaseExpiresAt.Some? && j.leaseExpiresAt.value > now))
  {
    CountPositive(jobs, HasStatus(Failed));
    CountPositive(jobs, HasStatus(DeadLetter));
    CountPositive(jobs, ExpiredAt(now));
    assert forall j :: ExpiredAt(now)(j) <==> Expired(j, now);
    assert forall j :: HasStatus(Failed)(j) <==> j.status == Failed;
    assert forall j :: HasStatus(DeadLetter)(j) <==> j.status == DeadLetter;
  }

  /** With the rows fixed, a later clock can only turn readiness into staleness. */
  lemma ClockOnlyStales(jobs: seq<Job>, now: int, later: int)
    requires now <= later
    ensures var before, after := WorkerAxis(WorkerCounts(jobs, now)), WorkerAxis(WorkerCounts(jobs, later));
      before == after || (before == Ready && after == Stale)
  {
    WorkerVerdict(jobs, now);
    WorkerVerdict(jobs, later);
    forall j ensures Expired(j, now) ==> Expired(j, later) {}
  }

  // ---- the report --------------------------------------------------------------------------------

  /** What a probe does: returns, finds the schema out of date, or raises anything else. */
  datatype Probe<+T> = Returns(value: T) | SchemaMismatch | Raises

  datatype Report = Report(postgres: AxisState, artifacts: AxisState, workers: AxisState)

  /** What the artifact probe finds: no root configured, or the inventory checked with so many failures. */
  datatype Artifacts = NoRoot | Checked(failures: nat)

  /** The PostgreSQL, artifact and worker axes of `operations_status`. */
  method OperationsStatus(dsnConfigured: bool, connect: Probe<()>, facts: Probe<()>, artifacts: Probe<Artifacts>,
      row: Probe<Counts>)
    returns (r: Report)
    ensures r.postgres == Ready <==> dsnConfigured && connect.Returns? && facts.Returns?
    ensures r.artifacts == Ready <==>
      r.postgres == Ready && artifacts.Returns? && artifacts.value == Artifacts.Checked(0)
    ensures r.artifacts == Error <==>
      r.postgres == Ready && artifacts.Returns? && artifacts.value.Checked? && artifacts.value.failures > 0
    ensures r.artifacts != Stale
    ensures r.workers == (if r.postgres == Ready && row.Returns? then WorkerAxis(row.value) else Unavailable)
    ensures r.postgres == Error <==>
      dsnConfigured && (connect.SchemaMismatch? || (connect.Returns? && facts.SchemaMismatch?))
    ensures r.postgres != Stale
    ensures r.postgres != Ready ==> r.artifacts == Unavailable && r.workers == Unavailable
  {
    if !dsnConfigured {
      return Report(Unavailable, Unavailable, Unavailable);
    }
    if connect.Returns? && facts.Returns? {
      r := Report(Ready, Unavailable, Unavailable);
      if artifacts.Returns? {
        r := r.(artifacts :=
          if artifacts.value.NoRoot? then Unavailable else if artifacts.value.failures != 0 then Error else Ready);
      }
      if row.Returns? {
        r := r.(workers := WorkerAxis(row.value));
      }
    } else if connect.SchemaMismatch? || (connect.Returns? && facts.SchemaMismatch?) {
      r := Report(Error, Unavailable, Unavailable);
    } else {
      r := Report(Unavailable, Unavailable, Unavailable);
    }
  }
}
