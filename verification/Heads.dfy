/** Publishing revisions behind a compare-and-set head, under any interleaving of publishers. */
module Heads {
  import opened Ordering
  import opened Text

  /** A scope and an episode: the key of a head. */
  datatype Entity = Entity(scope: Str, id: Str)

  /** An immutable row of read_revision. */
  datatype Revision = Revision(entity: Entity, payload: Str)

  /** A row of read_head. */
  datatype Head = Head(revision: Str, version: int)

  /**
   * Where a publisher is: before its SELECT, before it seeds the aggregate of an entity it saw no head of, before its
   * revision INSERT, before its head statement, or done.
   */
  datatype Phase =
    | Start
    | Unseeded
    | Checked(seen: Option<int>)
    | Inserted(seen: Option<int>)
    | Finished(won: bool)
    | Aborted

  datatype Publisher = Publisher(entity: Entity, revision: Str, payload: Str, phase: Phase)

  /** The tables: revisions, heads and the entities whose aggregate has a row; and the publishers. */
  datatype State = State(
    revisions: map<Str, Revision>, heads: map<Entity, Head>, seeded: set<Entity>, publishers: map<nat, Publisher>)

  function HeadVersion(s: State, e: Entity): Option<int> {
    if e in s.heads then Some(s.heads[e].version) else None
  }

  function Goto(s: State, id: nat, phase: Phase): State
    requires id in s.publishers
  {
    s.(publishers := s.publishers[id := s.publishers[id].(phase := phase)])
  }

  /** The next SQL statement of publisher `id` in `_seed_episode`, run atomically. */
  function Step(s: State, id: nat): State {
    if id !in s.publishers then s
    else
      var p := s.publishers[id];
      match p.phase
      case Start =>
        var seen := HeadVersion(s, p.entity);
        Goto(s, id, if seen.None? then Unseeded else Checked(seen))
      case Unseeded =>
        if p.entity in s.seeded then Goto(s, id, Aborted)
        else Goto(s.(seeded := s.seeded + {p.entity}), id, Checked(None))
      case Checked(seen) =>
        if p.revision in s.revisions then Goto(s, id, Aborted)
        else Goto(s.(revisions := s.revisions[p.revision := Revision(p.entity, p.payload)]), id, Inserted(seen))
      case Inserted(seen) =>
        if seen.None? then
          if p.entity in s.heads then Goto(s, id, Aborted)
          else Goto(s.(heads := s.heads[p.entity := Head(p.revision, 1)]), id, Finished(true))
        else if HeadVersion(s, p.entity) == seen then
          Goto(s.(heads := s.heads[p.entity := Head(p.revision, seen.value + 1)]), id, Finished(true))
        else Goto(s, id, Finished(false))
      case _ => s
  }

  /** A whole run: the publishers in the order the database served their statements. */
  function Run(s: State, schedule: seq<nat>): State
    decreases |schedule|
  {
    if schedule == [] then s else Run(Step(s, schedule[0]), schedule[1..])
  }

  // ---- what every run keeps ------------------------------------------------------------------------

  /** The head of `e` names a revision that was inserted for `e`. */
  ghost predicate HeadSound(s: State, e: Entity)
    requires e in s.heads
  {
    && s.heads[e].version >= 1
    && s.heads[e].revision in s.revisions && s.revisions[s.heads[e].revision].entity == e
  }

  /** A publisher past its insert finds its own row, and what it saw is not ahead of the head. */
  ghost predicate PublisherSound(s: State, id: nat)
    requires id in s.publishers
  {
    var p := s.publishers[id];
    && ((p.phase.Checked? || p.phase.Inserted?) && p.phase.seen.Some? ==>
          p.entity in s.heads && 1 <= p.phase.seen.value <= s.heads[p.entity].version)
    && (p.phase.Inserted? || p.phase.Finished? ==>
          p.revision in s.revisions && s.revisions[p.revision] == Revision(p.entity, p.payload))
  }

  /** The publisher has seeded its entity and not yet given it a head. */
  predicate Seeding(p: Publisher) {
    (p.phase.Checked? || p.phase.Inserted?) && p.phase.seen.None?
  }

  predicate BothSeed(p: Publisher, q: Publisher) {
    Seeding(p) && Seeding(q) && p.entity == q.entity
  }

  /** An entity with a head is seeded; one that is being seeded has no head yet, and only one publisher. */
  ghost predicate SeedsSound(s: State) {
    && (forall e :: e in s.heads ==> e in s.seeded)
    && (forall id :: id in s.publishers && Seeding(s.publishers[id]) ==>
          s.publishers[id].entity in s.seeded && s.publishers[id].entity !in s.heads)
    && (forall a, b :: a in s.publishers && b in s.publishers && BothSeed(s.publishers[a], s.publishers[b]) ==> a == b)
  }

  ghost predicate Inv(s: State) {
    && (forall e :: e in s.heads ==> HeadSound(s, e))
    && (forall id :: id in s.publishers ==> PublisherSound(s, id))
    && SeedsSound(s)
  }

  /** A database whose heads are sound and whose aggregates are seeded, with publishers that have not begun. */
  ghost predicate Initial(s: State) {
    && (forall e :: e in s.heads ==> HeadSound(s, e) && e in s.seeded)
    && (forall id :: id in s.publishers ==> s.publishers[id].phase == Start)
  }

  /** `t` has every row of `s`, with heads no older. */
  ghost predicate Grown(s: State, t: State) {
    && (forall r :: r in s.revisions ==> r in t.revisions && t.revisions[r] == s.revisions[r])
    && (forall e :: e in s.heads ==> e in t.heads && s.heads[e].version <= t.heads[e].version)
    && s.seeded <= t.seeded
  }

  lemma StepGrows(s: State, id: nat)
    ensures Grown(s, Step(s, id))
  {
  }

  lemma StepHeadsSound(s: State, id: nat)
    requires Inv(s)
    ensures forall e :: e in Step(s, id).heads ==> HeadSound(Step(s, id), e)
  {
  }

  /** Soundness of one publisher survives growth, and its own statement establishes it. */
  lemma OwnStepSound(s: State, id: nat)
    requires Inv(s) && id in s.publishers
    ensures id in Step(s, id).publishers && PublisherSound(Step(s, id), id)
  {
  }

  lemma OtherStepSound(s: State, t: State, other: nat)
    requires Grown(s, t) && other in s.publishers && other in t.publishers && t.publishers[other] == s.publishers[other]
    requires PublisherSound(s, other)
    ensures PublisherSound(t, other)
  {
  }

  lemma OthersLeaveAlone(s: State, id: nat, other: nat)
    requires other != id
    ensures id in s.publishers <==> id in Step(s, other).publishers
    ensures id in s.publishers ==> Step(s, other).publishers[id] == s.publishers[id]
  {
  }

  /** One statement keeps the invariant, keeps every inserted revision, and never lowers a head. */
  lemma StepKeeps(s: State, id: nat)
    requires Inv(s)
    ensures Inv(Step(s, id)) && Grown(s, Step(s, id))
  {
    hide Step, HeadSound, PublisherSound, Grown, SeedsSound;
    var t := Step(s, id);
    StepGrows(s, id);
    StepHeadsSound(s, id);
    StepSeedsSound(s, id);
    forall other | other in t.publishers ensures PublisherSound(t, other) {
      if other == id {
        StepStays(s, id);
        OwnStepSound(s, id);
      } else {
        OthersLeaveAlone(s, other, id);
        OtherStepSound(s, t, other);
      }
    }
  }

  lemma StepSeedsSound(s: State, id: nat)
    requires Inv(s)
    ensures SeedsSound(Step(s, id))
  {
    if id in s.publishers { assert PublisherSound(s, id); }
  }

  lemma StepStays(s: State, id: nat)
    ensures id in Step(s, id).publishers <==> id in s.publishers
  {
  }

  /** In every reachable state the heads are sound, and no revision ever changes or disappears. */
  lemma {:induction false} RunKeeps(s: State, schedule: seq<nat>)
    requires Inv(s)
    ensures Inv(Run(s, schedule)) && Grown(s, Run(s, schedule))
    decreases |schedule|
  {
    hide Inv, Step;
    if schedule != [] {
      StepKeeps(s, schedule[0]);
      RunKeeps(Step(s, schedule[0]), schedule[1..]);
    }
  }

  // ---- the history of a head -----------------------------------------------------------------------

  /** A successful head statement: who moved the head, and the version it was moved from (0 for none). */
  datatype Move = Move(publisher: nat, from: int, revision: Str)

  function Version(s: State, e: Entity): int {
    if e in s.heads then s.heads[e].version else 0
  }

  /** The move the next statement of `id` makes on the head of `e`, if it makes one. */
  function MoveOf(s: State, id: nat, e: Entity): Option<Move> {
    if id in s.publishers && s.publishers[id].entity == e && s.publishers[id].phase.Inserted?
       && Step(s, id).publishers[id].phase == Finished(true)
    then Some(Move(id, Version(s, e), s.publishers[id].revision))
    else None
  }

  /** The moves a run makes on the head of `e`, in order. */
  function Moves(s: State, schedule: seq<nat>, e: Entity): seq<Move>
    decreases |schedule|
  {
    if schedule == [] then []
    else
      var rest := Moves(Step(s, schedule[0]), schedule[1..], e);
      match MoveOf(s, schedule[0], e) case None => rest case Some(m) => [m] + rest
  }

  /** A statement either moves the head of `e` to the publisher's revision and the next version, or leaves it alone. */
  lemma StepMoves(s: State, id: nat, e: Entity)
    requires Inv(s)
    ensures match MoveOf(s, id, e)
      case Some(m) => e in Step(s, id).heads && Step(s, id).heads[e] == Head(m.revision, m.from + 1)
        && m.from == Version(s, e)
      case None => (e in Step(s, id).heads <==> e in s.heads) && (e in s.heads ==> Step(s, id).heads[e] == s.heads[e])
  {
  }

  /** The head is an append-only log: its moves start from consecutive versions, and the head shows the last of them. */
  lemma {:induction false} HeadIsALog(s: State, schedule: seq<nat>, e: Entity)
    requires Inv(s)
    ensures var moves, end := Moves(s, schedule, e), Run(s, schedule);
      && (forall k :: 0 <= k < |moves| ==> moves[k].from == Version(s, e) + k)
      && Version(end, e) == Version(s, e) + |moves|
      && (moves != [] ==> e in end.heads && end.heads[e].revision == moves[|moves| - 1].revision)
      && (moves == [] ==> (e in end.heads <==> e in s.heads) && (e in s.heads ==> end.heads[e] == s.heads[e]))
    decreases |schedule|
  {
    hide Inv, Step, MoveOf;
    if schedule != [] {
      StepKeeps(s, schedule[0]);
      StepMoves(s, schedule[0], e);
      HeadIsALog(Step(s, schedule[0]), schedule[1..], e);
    }
  }

  /** At most one publisher wins from any given version. */
  lemma OneWinnerPerVersion(s: State, schedule: seq<nat>, e: Entity, i: nat, j: nat)
    requires Inv(s) && i < |Moves(s, schedule, e)| && j < |Moves(s, schedule, e)|
    requires Moves(s, schedule, e)[i].from == Moves(s, schedule, e)[j].from
    ensures i == j
  {
    HeadIsALog(s, schedule, e);
  }

  /**
   * From any database with sound heads, under any schedule: sound heads, unchanged revisions, one winner per version.
   */
  lemma EveryRunIsALog(s: State, schedule: seq<nat>, e: Entity)
    requires Initial(s)
    ensures var moves, end := Moves(s, schedule, e), Run(s, schedule);
      && (forall h :: h in end.heads ==> HeadSound(end, h))
      && (forall r :: r in s.revisions ==> r in end.revisions && end.revisions[r] == s.revisions[r])
      && Version(end, e) == Version(s, e) + |moves|
      && (moves != [] ==> end.heads[e].revision == moves[|moves| - 1].revision)
      && (forall i, j :: 0 <= i < |moves| && 0 <= j < |moves| && moves[i].from == moves[j].from ==> i == j)
  {
    hide Step, Run, Moves, HeadSound;
    RunKeeps(s, schedule);
    HeadIsALog(s, schedule, e);
  }

  // ---- when a publisher wins -----------------------------------------------------------------------

  lemma {:induction false} OthersRun(s: State, id: nat, others: seq<nat>)
    requires id !in others && id in s.publishers
    ensures id in Run(s, others).publishers && Run(s, others).publishers[id] == s.publishers[id]
    decreases |others|
  {
    if others != [] {
      OthersLeaveAlone(s, id, others[0]);
      OthersRun(Step(s, others[0]), id, others[1..]);
    }
  }

  lemma RunConcat(s: State, a: seq<nat>, b: seq<nat>)
    ensures Run(s, a + b) == Run(Run(s, a), b)
    decreases |a|
  {
    if a == [] {
      assert a + b == b;
    } else {
      assert (a + b)[1..] == a[1..] + b;
      RunConcat(Step(s, a[0]), a[1..], b);
    }
  }

  /** The schedule in which `id` reads, inserts and moves, with others in between. */
  function Interleaved(id: nat, first: seq<nat>, second: seq<nat>): seq<nat> {
    [id] + (first + ([id] + (second + [id])))
  }

  lemma RunInterleaved(s: State, id: nat, first: seq<nat>, second: seq<nat>)
    ensures Run(s, Interleaved(id, first, second)) == Step(Run(Step(Run(Step(s, id), first), id), second), id)
  {
    hide Step;
    var tail: seq<nat> := [id];
    assert tail[1..] == [];
    var read := Step(s, id);
    var before := Run(read, first);
    var inserted := Step(before, id);
    RunConcat(s, tail, first + (tail + (second + tail)));
    RunConcat(read, first, tail + (second + tail));
    RunConcat(before, tail, second + tail);
    RunConcat(inserted, second, tail);
  }

  lemma ReadStep(s: State, id: nat)
    requires id in s.publishers && s.publishers[id].phase == Start
    ensures var p := s.publishers[id]; var t := Step(s, id);
      && id in t.publishers && t.heads == s.heads && t.seeded == s.seeded && t.revisions == s.revisions
      && t.publishers[id] == p.(phase := if p.entity in s.heads then Checked(HeadVersion(s, p.entity)) else Unseeded)
  {
  }

  lemma SeedStep(s: State, id: nat)
    requires id in s.publishers && s.publishers[id].phase == Unseeded
    ensures var p := s.publishers[id]; var t := Step(s, id);
      && id in t.publishers && t.heads == s.heads && t.revisions == s.revisions
      && t.publishers[id] == p.(phase := if p.entity in s.seeded then Aborted else Checked(None))
      && t.seeded == s.seeded + {p.entity}
  {
  }

  lemma InsertStep(s: State, id: nat)
    requires id in s.publishers && s.publishers[id].phase.Checked? && s.publishers[id].revision !in s.revisions
    ensures var p := s.publishers[id]; var t := Step(s, id);
      && id in t.publishers && t.publishers[id] == p.(phase := Inserted(p.phase.seen)) && t.heads == s.heads
      && t.revisions == s.revisions[p.revision := Revision(p.entity, p.payload)]
  {
  }

  /**
   * The last statement of a publisher that saw a head wins exactly when the head is still at that version; that of one
   * that has seeded its entity never conflicts and sets the first head.
   */
  lemma MoveStep(s: State, id: nat)
    requires Inv(s) && id in s.publishers && s.publishers[id].phase.Inserted?
    ensures var p, t := s.publishers[id], Step(s, id);
      && id in t.publishers
      && match p.phase.seen
        case Some(v) => t.publishers[id].phase == Finished(Version(s, p.entity) == v)
        case None =>
          t.publishers[id].phase == Finished(true) && p.entity in t.heads && t.heads[p.entity] == Head(p.revision, 1)
  {
    assert PublisherSound(s, id);
  }

  lemma SeenIsVersion(s: State, e: Entity)
    ensures Version(s, e) == match HeadVersion(s, e) case None => 0 case Some(v) => v
    ensures HeadVersion(s, e).Some? <==> e in s.heads
  {
  }

  lemma RevisionStays(s: State, t: State, r: Str)
    requires Grown(s, t) && r in s.revisions
    ensures r in t.revisions && t.revisions[r] == s.revisions[r]
  {
  }

  /** Somebody moves the head of `id` between its SELECT and its last statement. */
  predicate Overtaken(s: State, id: nat, first: seq<nat>, second: seq<nat>)
    requires id in s.publishers
  {
    var e, read := s.publishers[id].entity, Step(s, id);
    Moves(read, first, e) != [] || Moves(Step(Run(read, first), id), second, e) != []
  }

  /**
   * A publisher that sees a head, lets others run, inserts a fresh revision, lets others run again and moves, wins
   * exactly if nobody overtakes it. A loser returns normally all the same, without a sign that nothing moved, and its
   * revision is in the table either way.
   */
  lemma SilentLoss(s: State, id: nat, first: seq<nat>, second: seq<nat>)
    requires Inv(s) && id in s.publishers && s.publishers[id].phase == Start && s.publishers[id].entity in s.heads
    requires id !in first && id !in second
    requires s.publishers[id].revision !in Run(Step(s, id), first).revisions
    ensures var p, end := s.publishers[id], Run(s, Interleaved(id, first, second));
      && id in end.publishers
      && end.publishers[id].phase == Finished(!Overtaken(s, id, first, second))
      && p.revision in end.revisions && end.revisions[p.revision] == Revision(p.entity, p.payload)
  {
    hide Inv, Step, Run, Moves, Version, HeadVersion, Grown;
    var e := s.publishers[id].entity;
    var read := Step(s, id);
    var before := Run(read, first);
    var inserted := Step(before, id);
    var ready := Run(inserted, second);
    RunInterleaved(s, id, first, second);
    ReadStep(s, id);
    StepKeeps(s, id);
    OthersRun(read, id, first);
    RunKeeps(read, first);
    SeenIsVersion(s, e);
    InsertStep(before, id);
    StepKeeps(before, id);
    OthersRun(inserted, id, second);
    RunKeeps(inserted, second);
    HeadIsALog(read, first, e);
    HeadIsALog(inserted, second, e);
    SameHeads(s, read, e);
    SameHeads(before, inserted, e);
    MoveStep(ready, id);
    assert Version(ready, e) == Version(s, e) + |Moves(read, first, e)| + |Moves(inserted, second, e)|;
    StepKeeps(ready, id);
    RevisionStays(inserted, ready, s.publishers[id].revision);
    RevisionStays(ready, Step(ready, id), s.publishers[id].revision);
  }

  // ---- when a publisher sees no head ---------------------------------------------------------------

  /** A publisher that has failed does nothing more. */
  lemma AbortedIsIdle(s: State, id: nat)
    requires id in s.publishers && s.publishers[id].phase == Aborted
    ensures Step(s, id) == s
  {
  }

  /**
   * A publisher that sees no head and, after others have run, seeds: it goes on exactly if nobody has seeded the entity
   * by then. Otherwise it fails, changes no table, and does nothing in any later run.
   */
  lemma NoHeadLoser(s: State, id: nat, first: seq<nat>)
    requires Inv(s) && id in s.publishers && s.publishers[id].phase == Start && s.publishers[id].entity !in s.heads
    requires id !in first
    ensures var e, before := s.publishers[id].entity, Run(Step(s, id), first); var t := Step(before, id);
      && id in t.publishers
      && t.publishers[id].phase == (if e in before.seeded then Aborted else Checked(None))
      && (e in before.seeded ==>
            t.revisions == before.revisions && t.heads == before.heads && t.seeded == before.seeded
            && Step(t, id) == t)
  {
    hide Inv, Step, Run;
    var before := Run(Step(s, id), first);
    ReadStep(s, id);
    OthersRun(Step(s, id), id, first);
    SeedStep(before, id);
    if s.publishers[id].entity in before.seeded { AbortedIsIdle(Step(before, id), id); }
  }

  /**
   * A publisher that has seeded, inserts a fresh revision after others have run, and sets the head after others have
   * run again, always wins.
   */
  lemma SeederWins(t: State, id: nat, second: seq<nat>, third: seq<nat>)
    requires Inv(t) && id in t.publishers && t.publishers[id].phase == Checked(None)
    requires id !in second && id !in third
    requires t.publishers[id].revision !in Run(t, second).revisions
    ensures var p, ready := t.publishers[id], Run(Step(Run(t, second), id), third); var end := Step(ready, id);
      && p.entity !in ready.heads
      && id in end.publishers && end.publishers[id].phase == Finished(true)
      && p.entity in end.heads && end.heads[p.entity] == Head(p.revision, 1)
      && p.revision in end.revisions && end.revisions[p.revision] == Revision(p.entity, p.payload)
  {
    hide Inv, Step, Run, Grown;
    var before := Run(t, second);
    var inserted := Step(before, id);
    var ready := Run(inserted, third);
    OthersRun(t, id, second);
    RunKeeps(t, second);
    InsertStep(before, id);
    StepKeeps(before, id);
    OthersRun(inserted, id, third);
    RunKeeps(inserted, third);
    NoHeadYet(ready, id);
    MoveStep(ready, id);
    StepKeeps(ready, id);
    RevisionStays(inserted, ready, t.publishers[id].revision);
    RevisionStays(ready, Step(ready, id), t.publishers[id].revision);
  }

  lemma NoHeadYet(s: State, id: nat)
    requires Inv(s) && id in s.publishers && Seeding(s.publishers[id])
    ensures s.publishers[id].entity !in s.heads
  {
  }

  /** None of these publishers has seeded `e` and not yet given it a head. */
  ghost predicate NoneSeeds(s: State, e: Entity, ids: seq<nat>) {
    forall id :: id in ids && id in s.publishers && s.publishers[id].entity == e ==> !Seeding(s.publishers[id])
  }

  lemma StrandedStep(s: State, id: nat, e: Entity, rest: seq<nat>)
    requires Inv(s) && e in s.seeded && e !in s.heads && NoneSeeds(s, e, [id] + rest)
    ensures e in Step(s, id).seeded && e !in Step(s, id).heads && NoneSeeds(Step(s, id), e, rest)
  {
    assert id in [id] + rest && forall x :: x in rest ==> x in [id] + rest;
    if id in s.publishers { assert PublisherSound(s, id); }
  }

  /**
   * If the publisher that seeded an entity stops before it sets the head, nobody else ever does: the entity stays
   * without a head in every run.
   */
  lemma {:induction false} SeededWithoutHead(s: State, schedule: seq<nat>, e: Entity)
    requires Inv(s) && e in s.seeded && e !in s.heads && NoneSeeds(s, e, schedule)
    ensures e !in Run(s, schedule).heads
    decreases |schedule|
  {
    hide Inv, Step, NoneSeeds;
    if schedule != [] {
      assert schedule == [schedule[0]] + schedule[1..];
      StepKeeps(s, schedule[0]);
      StrandedStep(s, schedule[0], e, schedule[1..]);
      SeededWithoutHead(Step(s, schedule[0]), schedule[1..], e);
    }
  }

  const EPISODE: Entity := Entity([], [])
  const OLD: map<Str, Revision> := map[[0] := Revision(EPISODE, [])]
  const NEWER: map<Str, Revision> := OLD[[2] := Revision(EPISODE, [])]
  const ALL: map<Str, Revision> := NEWER[[1] := Revision(EPISODE, [])]

  /** Two publishers of one entity that has a head. */
  function Race(revisions: map<Str, Revision>, head: Head, first: Phase, second: Phase): State {
    State(revisions, map[EPISODE := head], {EPISODE},
      map[0 := Publisher(EPISODE, [1], [], first), 1 := Publisher(EPISODE, [2], [], second)])
  }

  /** The second publisher overtakes the first, which returns with its revision inserted and without a move. */
  lemma SilentLossWitness()
    ensures Initial(Race(OLD, Head([0], 1), Start, Start))
    ensures Run(Race(OLD, Head([0], 1), Start, Start), Interleaved(0, [1, 1, 1], []))
      == Race(ALL, Head([2], 2), Finished(false), Finished(true))
  {
    hide Step, Run, Initial, Race;
    InitialRace();
    var s := Race(OLD, Head([0], 1), Start, Start);
    var read := Race(OLD, Head([0], 1), Checked(Some(1)), Start);
    var overtaken := Race(NEWER, Head([2], 2), Checked(Some(1)), Finished(true));
    var inserted := Race(ALL, Head([2], 2), Inserted(Some(1)), Finished(true));
    RunInterleaved(s, 0, [1, 1, 1], []);
    RunThree(read, 1);
    SecondWins();
    FirstInserts();
    FirstLoses();
    NothingRuns(inserted);
  }

  lemma InitialRace()
    ensures Initial(Race(OLD, Head([0], 1), Start, Start))
  {
  }

  lemma SecondWins()
    ensures Step(Race(OLD, Head([0], 1), Start, Start), 0) == Race(OLD, Head([0], 1), Checked(Some(1)), Start)
    ensures Step(Race(OLD, Head([0], 1), Checked(Some(1)), Start), 1)
      == Race(OLD, Head([0], 1), Checked(Some(1)), Checked(Some(1)))
    ensures Step(Race(OLD, Head([0], 1), Checked(Some(1)), Checked(Some(1))), 1)
      == Race(NEWER, Head([0], 1), Checked(Some(1)), Inserted(Some(1)))
    ensures Step(Race(NEWER, Head([0], 1), Checked(Some(1)), Inserted(Some(1))), 1)
      == Race(NEWER, Head([2], 2), Checked(Some(1)), Finished(true))
  {
  }

  lemma FirstInserts()
    ensures Step(Race(NEWER, Head([2], 2), Checked(Some(1)), Finished(true)), 0)
      == Race(ALL, Head([2], 2), Inserted(Some(1)), Finished(true))
  {
  }

  lemma FirstLoses()
    ensures Step(Race(ALL, Head([2], 2), Inserted(Some(1)), Finished(true)), 0)
      == Race(ALL, Head([2], 2), Finished(false), Finished(true))
  {
  }

  lemma RunThree(s: State, id: nat)
    ensures Run(s, [id, id, id]) == Step(Step(Step(s, id), id), id)
  {
    hide Step;
    var three, two, one: seq<nat> := [id, id, id], [id, id], [id];
    assert three[1..] == two && two[1..] == one && one[1..] == [];
    assert Run(s, three) == Run(Step(s, id), two) == Run(Step(Step(s, id), id), one);
  }

  lemma NothingRuns(s: State)
    ensures Run(s, []) == s
  {
  }

  lemma SameHeads(s: State, t: State, e: Entity)
    requires s.heads == t.heads
    ensures Version(s, e) == Version(t, e)
  {
  }
}
