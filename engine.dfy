/** The scheduler object of `SJFnp`/`SJFp`: its fields are updated in place by the
    methods below, each of which is proved to leave the fields as the corresponding
    function of the `Scheduling` module computes from the old fields. */
module Engine {
  import opened Outcomes
  import opened Students
  import opened Queue
  import opened Pools
  import opened Scheduling
  import opened TickFacts

  /** No `None` placeholder is left in the arrivals list. */
  predicate AllPresent(a: seq<Option<Student>>)
  {
    forall k :: 0 <= k < |a| ==> a[k].Some?
  }

  lemma {:induction false} ArrivingLaterPresent(studs: seq<Student>)
    ensures AllPresent(ArrivingLater(studs))
  {
    if studs != [] {
      ArrivingLaterPresent(studs[1..]);
    }
  }

  /** What the arrival loop has done after visiting the first `k` entries of `a`. */
  predicate ArrivedUpTo(a: seq<Option<Student>>, k: nat, e: int, q0: seq<Student>, st0: map<string, Status>,
                        qb: seq<Student>, st: map<string, Status>, al: seq<Option<Student>>)
    requires k <= |a|
  {
    && qb == q0 + Arrivals(a[..k], e)
    && st == MarkWaiting(st0, Arrivals(a[..k], e))
    && al == Departed(a[..k], e) + a[k..]
  }

  lemma ArrivalsSnoc(a: seq<Option<Student>>, k: nat, e: int)
    requires k < |a| && a[k].Some?
    ensures Arrivals(a[..k + 1], e) == Arrivals(a[..k], e) + (if e > a[k].value.arrTime then [a[k].value] else [])
  {
    assert a[..k + 1][..k] == a[..k];
  }

  lemma MarkWaitingSnoc(st0: map<string, Status>, xs: seq<Student>, x: Student)
    ensures MarkWaiting(st0, xs + [x]) == MarkWaiting(st0, xs)[x.name := Waiting]
  {
    assert (xs + [x])[..|xs|] == xs;
  }

  lemma DepartedSnoc(a: seq<Option<Student>>, k: nat, e: int)
    requires k < |a| && a[k].Some?
    ensures var al := Departed(a[..k], e) + a[k..];
      Departed(a[..k + 1], e) + a[k + 1..] == (if e > a[k].value.arrTime then al[k := None] else al)
  {
    var al := Departed(a[..k], e) + a[k..];
    var next := Departed(a[..k + 1], e) + a[k + 1..];
    assert |next| == |al|;
    forall i | 0 <= i < |next|
      ensures next[i] == (if e > a[k].value.arrTime then al[k := None] else al)[i]
    {
      if i < k {
        assert next[i] == Departed(a[..k + 1], e)[i];
        assert al[i] == Departed(a[..k], e)[i];
      } else if i > k {
        assert next[i] == a[k + 1..][i - k - 1];
        assert al[i] == a[k..][i - k];
      } else {
        assert al[i] == a[k..][0];
      }
    }
  }

  /** One more entry of the arrivals list visited: the arrivals, their marking and the
      overwritten list grow as the loop in `exec` makes them grow. */
  lemma ArrivalStep(a: seq<Option<Student>>, k: nat, e: int, q0: seq<Student>, st0: map<string, Status>,
                    qb: seq<Student>, st: map<string, Status>, al: seq<Option<Student>>)
    requires k < |a| && a[k].Some? && ArrivedUpTo(a, k, e, q0, st0, qb, st, al)
    ensures al[k] == a[k]
    ensures var x := a[k].value;
      if e > x.arrTime then ArrivedUpTo(a, k + 1, e, q0, st0, qb + [x], st[x.name := Waiting], al[k := None])
      else ArrivedUpTo(a, k + 1, e, q0, st0, qb, st, al)
  {
    assert al[k] == a[k..][0];
    ArrivalsSnoc(a, k, e);
    DepartedSnoc(a, k, e);
    var xs := Arrivals(a[..k], e);
    if e > a[k].value.arrTime {
      MarkWaitingSnoc(st0, xs, a[k].value);
    } else {
      assert xs + [] == xs;
    }
  }

  /** One more professor's slots appended by the construction loop. */
  lemma PoolsStep(profs: seq<Professor>, i: nat, p: map<string, seq<Slot>>)
    requires i < |profs| && p == map d | d in Offerings(profs) :: PoolOf(profs[..i], d)
    ensures var e := profs[i];
      p[e.discipline := p[e.discipline] + IdleSlots(e)] == map d | d in Offerings(profs) :: PoolOf(profs[..i + 1], d)
  {
    var e := profs[i];
    assert e in profs;
    assert profs[..i + 1] == profs[..i] + [e];
    var p' := p[e.discipline := p[e.discipline] + IdleSlots(e)];
    forall d | d in Offerings(profs)
      ensures p'[d] == PoolOf(profs[..i + 1], d)
    {
      PoolOfSnoc(profs[..i], e, d);
      if d != e.discipline {
        assert PoolOf(profs[..i], d) + [] == PoolOf(profs[..i], d);
      }
    }
  }

  /** The construction loop of `__init__`: each professor in turn extends the slot
      list of their discipline by one idle slot per student they take. */
  method BuildPools(profs: seq<Professor>) returns (p: map<string, seq<Slot>>)
    ensures p == InitialPools(profs)
  {
    p := map d | d in Offerings(profs) :: [];
    for i := 0 to |profs|
      invariant p == map d | d in Offerings(profs) :: PoolOf(profs[..i], d)
    {
      PoolsStep(profs, i, p);
      var e := profs[i];
      p := p[e.discipline := p[e.discipline] + IdleSlots(e)];
    }
    assert profs[..|profs|] == profs;
  }

  /** The initial slot table names every slot's thread `professor_student_ `, and
      every student of a later arrival is present. */
  lemma InitialValid(profs: seq<Professor>, studs: seq<Student>)
    ensures WellNamed(InitialPools(profs)) && AllPresent(ArrivingLater(studs))
  {
    InitialPoolsShape(profs);
    ArrivingLaterPresent(studs);
  }

  /** The students named by the dead threads among the slots `tick` has visited: all
      slots of the disciplines in `done`, and the first `upto` slots of `d`. */
  ghost function DeadSoFar(pools: map<string, seq<Slot>>, done: set<string>, d: string, upto: int): set<string>
  {
    set d', i | d' in pools && 0 <= i < |pools[d']| && (d' in done || (d' == d && i < upto))
      && !pools[d'][i].alive && '_' in pools[d'][i].occupant :: StudentOf(pools[d'][i].occupant)
  }

  /** The state once the students of `dead` have been considered by `tick`. */
  ghost function MarkedSoFar(s: Sched, dead: set<string>): map<string, Status>
  {
    map n | n in s.state :: if n in dead && n !in QueueNames(s.qbegin) && n !in AliveOccupants(s.pools) then Finished else s.state[n]
  }

  lemma DeadSoFarStep(pools: map<string, seq<Slot>>, done: set<string>, d: string, i: nat)
    requires d in pools && d !in done && i < |pools[d]|
    ensures var x := pools[d][i];
      DeadSoFar(pools, done, d, i + 1) ==
        DeadSoFar(pools, done, d, i) + (if !x.alive && '_' in x.occupant then {StudentOf(x.occupant)} else {})
  {
    var x := pools[d][i];
    var extra: set<string> := if !x.alive && '_' in x.occupant then {StudentOf(x.occupant)} else {};
    forall n | n in DeadSoFar(pools, done, d, i + 1)
      ensures n in DeadSoFar(pools, done, d, i) + extra
    {
      var d', i' :| d' in pools && 0 <= i' < |pools[d']| && (d' in done || (d' == d && i' < i + 1))
        && !pools[d'][i'].alive && '_' in pools[d'][i'].occupant && n == StudentOf(pools[d'][i'].occupant);
      if d' == d && i' == i {
        assert n in extra;
      }
    }
  }

  /** Before `d` is visited it contributes nothing; once all its slots are, it counts
      as done. */
  lemma DeadSoFarNext(pools: map<string, seq<Slot>>, done: set<string>, d: string, upto: int, d0: string)
    requires d in pools && (upto == 0 || upto == |pools[d]|)
    ensures upto == 0 ==> DeadSoFar(pools, done, d, 0) == DeadSoFar(pools, done, d0, 0)
    ensures upto == |pools[d]| ==> DeadSoFar(pools, done, d, upto) == DeadSoFar(pools, done + {d}, d0, 0)
  {
  }

  lemma DeadSoFarAll(pools: map<string, seq<Slot>>, d0: string)
    ensures DeadSoFar(pools, pools.Keys, d0, 0) == DeadOccupants(pools)
  {
  }

  lemma MarkedSoFarStep(s: Sched, dead: set<string>, n: string)
    ensures var st := MarkedSoFar(s, dead);
      MarkedSoFar(s, dead + {n}) ==
        if n in st && n !in QueueNames(s.qbegin) && n !in AliveOccupants(s.pools) then st[n := Finished] else st
  {
  }

  /** One slot visited by the first loop of `tick`: the student of a dead thread who
      is known, not queued and named by no live thread becomes finished. */
  function Visit(st: map<string, Status>, x: Slot, waiting: set<string>, running: set<string>): map<string, Status>
    requires '_' in x.occupant
  {
    var n := StudentOf(x.occupant);
    if !x.alive && n in st && n !in waiting && n !in running then st[n := Finished] else st
  }

  /** The slots of `row` visited one after the other. */
  function VisitRow(st: map<string, Status>, row: seq<Slot>, waiting: set<string>, running: set<string>): map<string, Status>
    requires forall j :: 0 <= j < |row| ==> '_' in row[j].occupant
  {
    if row == [] then st else Visit(VisitRow(st, row[..|row| - 1], waiting, running), row[|row| - 1], waiting, running)
  }

  lemma ReconcileStep(s: Sched, done: set<string>, d: string, i: nat)
    requires d in s.pools && d !in done && i < |s.pools[d]| && WellNamed(s.pools)
    ensures MarkedSoFar(s, DeadSoFar(s.pools, done, d, i + 1)) ==
      Visit(MarkedSoFar(s, DeadSoFar(s.pools, done, d, i)), s.pools[d][i], QueueNames(s.qbegin), AliveOccupants(s.pools))
  {
    var x := s.pools[d][i];
    DeadSoFarStep(s.pools, done, d, i);
    if !x.alive {
      MarkedSoFarStep(s, DeadSoFar(s.pools, done, d, i), StudentOf(x.occupant));
    } else {
      assert DeadSoFar(s.pools, done, d, i + 1) == DeadSoFar(s.pools, done, d, i);
    }
  }

  /** Visiting the first `i` slots of `d` marks exactly the students those slots'
      dead threads name. */
  lemma {:induction false} VisitRowMarks(s: Sched, done: set<string>, d: string, i: nat)
    requires d in s.pools && d !in done && i <= |s.pools[d]| && WellNamed(s.pools)
    ensures VisitRow(MarkedSoFar(s, DeadSoFar(s.pools, done, d, 0)), s.pools[d][..i], QueueNames(s.qbegin), AliveOccupants(s.pools)) ==
      MarkedSoFar(s, DeadSoFar(s.pools, done, d, i))
  {
    if i > 0 {
      VisitRowMarks(s, done, d, i - 1);
      assert s.pools[d][..i][..i - 1] == s.pools[d][..i - 1];
      ReconcileStep(s, done, d, i - 1);
    }
  }

  /** Once every discipline is visited, the state is the one `Reconcile` describes. */
  lemma ReconciledAll(s: Sched)
    ensures MarkedSoFar(s, DeadSoFar(s.pools, s.pools.Keys, "", 0)) == Reconcile(s).state
  {
    DeadSoFarAll(s.pools, "");
    MarkedSoFarAll(s);
  }

  lemma MarkedSoFarAll(s: Sched)
    ensures MarkedSoFar(s, DeadOccupants(s.pools)) == Reconcile(s).state
  {
  }

  class Scheduler {
    /** `proc` and `now`, one record per slot. */
    var pools: map<string, seq<Slot>>
    var state: map<string, Status>
    var qbegin: seq<Student>
    var allstud: seq<Option<Student>>
    /** The students whose lock is held. */
    var locked: set<string>
    var delta: int
    var q: int

    function Snapshot(): Sched
      reads this
    {
      Sched(pools, state, qbegin, allstud, locked, delta, q)
    }

    /** What holds between two calls of `exec` and `tick`. */
    predicate Valid()
      reads this
    {
      WellNamed(pools) && AllPresent(allstud)
    }

    /** `__init__` up to its call of `prepare`: one idle slot per capacity unit of each
        professor, every student not yet arrived, the students arriving at time 0 in
        the queue and the others in the arrivals list. */
    constructor (profs: seq<Professor>, studs: seq<Student>, quantum: int)
      ensures Snapshot() == Initial(profs, studs, quantum) && Valid()
    {
      var p := BuildPools(profs);
      InitialValid(profs, studs);
      pools := p;
      state := map n | n in QueueNames(studs) :: NotArrived;
      allstud := ArrivingLater(studs);
      qbegin := StartingNow(studs);
      locked := {};
      delta := 0;
      q := quantum;
    }

    /** `prepare`. On failure the queue has already been sorted. */
    method Prepare() returns (r: Outcome)
      modifies this
      ensures r == OutcomeOf(Scheduling.Prepare(old(Snapshot())))
      ensures r.Pass? ==> Snapshot() == Scheduling.Prepare(old(Snapshot())).value
      ensures r.Fail? ==> Snapshot() == old(Snapshot()).(qbegin := SortByBurst(old(qbegin)))
    {
      qbegin := SortByBurst(qbegin);
      if SomeMissing(qbegin, pools) {
        return Fail(MissingDiscipline);
      }
      allstud := Present(allstud);
      qbegin := NonEmpty(qbegin);
      r := Pass;
    }

    /** The arrival loop at the start of both `exec` methods, `e` being the elapsed time. */
    method Arrive(e: int)
      requires AllPresent(allstud)
      modifies this
      ensures Snapshot() == Scheduling.Arrive(old(Snapshot()), e)
    {
      ghost var a := allstud;
      var k := 0;
      while k < |allstud|
        invariant 0 <= k <= |allstud| == |a|
        invariant ArrivedUpTo(a, k, e, old(qbegin), old(state), qbegin, state, allstud)
        invariant pools == old(pools) && locked == old(locked) && delta == old(delta) && q == old(q)
      {
        ArrivalStep(a, k, e, old(qbegin), old(state), qbegin, state, allstud);
        var s := allstud[k].value;
        if e > s.arrTime {
          qbegin := qbegin + [s];
          state := state[s.name := Waiting];
          allstud := allstud[k := None];
        }
        k := k + 1;
      }
      assert a[..k] == a;
      assert a[k..] == [];
    }

    /** `find_alive(d)`: the first slot whose thread is dead; its former occupant, when
        it is a known student, becomes finished. An empty pool is refused, as indexing
        its first slot fails in the source. */
    method FindAlive(d: string) returns (r: Option<nat>)
      requires d in pools && |pools[d]| > 0 && WellNamed(pools)
      modifies this
      ensures (r, Snapshot()) == Scheduling.FindAlive(old(Snapshot()), d)
    {
      FirstMatchLeast(pools[d], Dead);
      var i := 0;
      while pools[d][i].alive
        invariant 0 <= i < |pools[d]|
        invariant forall j :: 0 <= j < i ==> pools[d][j].alive
        decreases |pools[d]| - i
      {
        i := i + 1;
        if i == |pools[d]| {
          return None;
        }
      }
      var pname := StudentOf(pools[d][i].occupant);
      if pname in state {
        state := state[pname := Finished];
      }
      r := Some(i);
    }

    /** `find_prior(d, p)`: the first slot whose priority is at most `p`. */
    method FindPrior(d: string, p: int) returns (r: Option<nat>)
      requires d in pools && |pools[d]| > 0
      ensures r == FirstMatch(pools[d], PrioAtMost(p))
      ensures r.None? <==> forall j :: 0 <= j < |pools[d]| ==> pools[d][j].prio > p
      ensures r.Some? ==> r.value < |pools[d]| && pools[d][r.value].prio <= p
      ensures r.Some? ==> forall j :: 0 <= j < r.value ==> pools[d][j].prio > p
    {
      FirstMatchLeast(pools[d], PrioAtMost(p));
      var i := 0;
      while pools[d][i].prio > p
        invariant 0 <= i < |pools[d]|
        invariant forall j :: 0 <= j < i ==> pools[d][j].prio > p
        decreases |pools[d]| - i
      {
        i := i + 1;
        if i == |pools[d]| {
          return None;
        }
      }
      r := Some(i);
    }

    /** `find_burst(d, p, b)`: the first slot with at least `b` remaining time and
        priority at most `p`. */
    method FindBurst(d: string, p: int, b: int) returns (r: Option<nat>)
      requires d in pools && |pools[d]| > 0
      ensures r == FirstMatch(pools[d], LongerAtMostPrio(p, b))
      ensures r.None? <==> forall j :: 0 <= j < |pools[d]| ==> pools[d][j].rem < b || pools[d][j].prio > p
      ensures r.Some? ==> r.value < |pools[d]| && pools[d][r.value].rem >= b && pools[d][r.value].prio <= p
      ensures r.Some? ==> forall j :: 0 <= j < r.value ==> pools[d][j].rem < b || pools[d][j].prio > p
    {
      FirstMatchLeast(pools[d], LongerAtMostPrio(p, b));
      var i := 0;
      while pools[d][i].rem < b || pools[d][i].prio > p
        invariant 0 <= i < |pools[d]|
        invariant forall j :: 0 <= j < i ==> pools[d][j].rem < b || pools[d][j].prio > p
        decreases |pools[d]| - i
      {
        i := i + 1;
        if i == |pools[d]| {
          return None;
        }
      }
      r := Some(i);
    }

    /** `push_student(d, i)`: the occupant is stopped first, which releases its lock,
        then the student is parsed from the thread name and appended to the queue. */
    method PushStudent(d: string, i: nat) returns (r: Outcome)
      requires d in pools && i < |pools[d]| && WellNamed(pools)
      modifies this
      ensures r == OutcomeOf(Scheduling.PushStudent(old(Snapshot()), d, i))
      ensures r.Pass? ==> Snapshot() == Scheduling.PushStudent(old(Snapshot()), d, i).value
      ensures r.Fail? ==> Snapshot() == old(Snapshot()).(locked := old(locked) - {StudentOf(old(pools)[d][i].occupant)})
    {
      var x := pools[d][i];
      locked := locked - {StudentOf(x.occupant)};
      var st := Decode(x.occupant, d, x.rem);
      if st.None? {
        return Fail(BadOccupant);
      }
      qbegin := qbegin + [st.value];
      r := Pass;
    }

    /** Queue entry `k` starts on slot `i` of `d`, its `j`-th discipline, under thread
        name `name`: it runs and holds its lock, the slot records its remaining time and
        priority, and the discipline leaves its list. */
    method Occupy(k: nat, j: nat, d: string, i: nat, name: string)
      requires k < |qbegin| && j < |qbegin[k].discipline| && d in pools && i < |pools[d]|
      modifies this
      ensures Snapshot() == Scheduling.Occupy(old(Snapshot()), k, j, d, i, name)
    {
      var st := qbegin[k];
      state := state[st.name := Running];
      pools := pools[d := pools[d][i := Slot(name, true, st.remTime, st.prior)]];
      qbegin := qbegin[k := st.(discipline := RemoveAt(st.discipline, j))];
      locked := locked + {st.name};
    }

    /** The inner loop of `SJFnp.exec` for queue entry `k`: the first discipline with a
        dead slot is taken, under the thread name `prof + '_' + student`. */
    method PlaceNP(k: nat) returns (r: Outcome)
      requires Ready(Snapshot()) && k < |qbegin|
      modifies this
      ensures r == OutcomeOf(TryPlaceNP(old(Snapshot()), k, 0))
      ensures r.Pass? ==> Snapshot() == TryPlaceNP(old(Snapshot()), k, 0).value
    {
      var j := 0;
      while j < |qbegin[k].discipline|
        invariant Ready(Snapshot()) && k < |qbegin| && j <= |qbegin[k].discipline|
        invariant TryPlaceNP(Snapshot(), k, j) == TryPlaceNP(old(Snapshot()), k, 0)
        decreases |qbegin[k].discipline| - j
      {
        var st := qbegin[k];
        var d := st.discipline[j];
        if |pools[d]| == 0 {
          return Fail(EmptyPool(d));
        }
        var i := FindAlive(d);
        if i.Some? {
          var n := i.value;
          Occupy(k, j, d, n, PlainName(ProfOf(pools[d][n].occupant), st));
          return Pass;
        }
        j := j + 1;
      }
      r := Pass;
    }

    /** The outer loop of `SJFnp.exec`: one turn for every queue entry whose lock is free. */
    method PassNP() returns (r: Outcome)
      requires Ready(Snapshot())
      modifies this
      ensures r == OutcomeOf(Scheduling.PassNP(old(Snapshot()), 0))
      ensures r.Pass? ==> Snapshot() == Scheduling.PassNP(old(Snapshot()), 0).value
    {
      ghost var start := Snapshot();
      var k := 0;
      r := Pass;
      while k < |qbegin|
        invariant Ready(Snapshot()) && k <= |qbegin| && r == Pass
        invariant Scheduling.PassNP(Snapshot(), k) == Scheduling.PassNP(start, 0)
        decreases |qbegin| - k
      {
        if qbegin[k].name !in locked {
          r := PlaceNP(k);
          if r.Fail? {
            return;
          }
        }
        k := k + 1;
      }
    }

    /** `SJFnp.exec` at elapsed time `e`: arrivals, `prepare`, then the placement pass. */
    method ExecNP(e: int) returns (r: Outcome)
      requires Valid()
      modifies this
      ensures r == OutcomeOf(Scheduling.ExecNP(old(Snapshot()), e))
      ensures r.Pass? ==> Snapshot() == Scheduling.ExecNP(old(Snapshot()), e).value && Valid()
    {
      Arrive(e);
      r := Prepare();
      if r.Fail? {
        return;
      }
      r := PassNP();
    }

    /** The inner loop of `SJFp.exec` for queue entry `k`: a dead slot, else the slot
        `find_prior` finds, else the one `find_burst` finds; a live occupant is pushed
        back first, and the thread name is `prof + '_' + student + '_' + str(student)`. */
    method PlaceP(k: nat) returns (r: Outcome)
      requires Ready(Snapshot()) && k < |qbegin|
      modifies this
      ensures r == OutcomeOf(TryPlaceP(old(Snapshot()), k, 0))
      ensures r.Pass? ==> Snapshot() == TryPlaceP(old(Snapshot()), k, 0).value
    {
      var j := 0;
      while j < |qbegin[k].discipline|
        invariant Ready(Snapshot()) && k < |qbegin| && j <= |qbegin[k].discipline|
        invariant TryPlaceP(Snapshot(), k, j) == TryPlaceP(old(Snapshot()), k, 0)
        decreases |qbegin[k].discipline| - j
      {
        var st := qbegin[k];
        var d := st.discipline[j];
        if |pools[d]| == 0 {
          return Fail(EmptyPool(d));
        }
        var i := FindAlive(d);
        if i.None? {
          i := FindPrior(d, st.prior);
        }
        if i.None? {
          i := FindBurst(d, st.prior, st.burst);
        }
        if i.Some? {
          r := TakeSlot(k, j, i.value);
          return;
        }
        j := j + 1;
      }
      r := Pass;
    }

    /** Queue entry `k` takes slot `i` of its `j`-th discipline in `SJFp.exec`: it
        becomes running, a live occupant is pushed back to the queue, and the slot gets a
        new thread for the student. */
    method TakeSlot(k: nat, j: nat, i: nat) returns (r: Outcome)
      requires Ready(Snapshot()) && k < |qbegin| && j < |qbegin[k].discipline|
      requires i < |pools[qbegin[k].discipline[j]]|
      modifies this
      ensures r == OutcomeOf(TakeSlotP(old(Snapshot()), k, j, i))
      ensures r.Pass? ==> Snapshot() == TakeSlotP(old(Snapshot()), k, j, i).value
    {
      var st := qbegin[k];
      var d := st.discipline[j];
      state := state[st.name := Running];
      if pools[d][i].alive {
        r := PushStudent(d, i);
        if r.Fail? {
          return;
        }
      }
      Occupy(k, j, d, i, EncodedName(ProfOf(pools[d][i].occupant), st));
      r := Pass;
    }

    /** The outer loop of `SJFp.exec`, over a queue that grows while it is walked; at
        most `fuel` entries are visited, and running out of them is `OutOfFuel`. */
    method PassP(fuel: nat) returns (r: Outcome)
      requires Ready(Snapshot())
      modifies this
      ensures r == OutcomeOf(Scheduling.PassP(old(Snapshot()), 0, fuel))
      ensures r.Pass? ==> Snapshot() == Scheduling.PassP(old(Snapshot()), 0, fuel).value
    {
      ghost var start := Snapshot();
      var k, left := 0, fuel;
      r := Pass;
      while k < |qbegin|
        invariant Ready(Snapshot()) && k <= |qbegin| && r == Pass
        invariant Scheduling.PassP(Snapshot(), k, left) == Scheduling.PassP(start, 0, fuel)
        decreases left
      {
        if left == 0 {
          return Fail(OutOfFuel);
        }
        if qbegin[k].name !in locked {
          r := PlaceP(k);
          if r.Fail? {
            return;
          }
        }
        k, left := k + 1, left - 1;
      }
    }

    /** `SJFp.exec` at elapsed time `e`, visiting at most `fuel` queue entries. */
    method ExecP(e: int, fuel: nat) returns (r: Outcome)
      requires Valid()
      modifies this
      ensures r == OutcomeOf(Scheduling.ExecP(old(Snapshot()), e, fuel))
      ensures r.Pass? ==> Snapshot() == Scheduling.ExecP(old(Snapshot()), e, fuel).value && Valid()
    {
      Arrive(e);
      r := Prepare();
      if r.Fail? {
        return;
      }
      r := PassP(fuel);
    }

    /** The first loop of `tick`: every dead thread's student that is known, not queued
        and named by no live thread becomes finished. */
    method Reconcile()
      requires WellNamed(pools)
      modifies this
      ensures Snapshot() == Scheduling.Reconcile(old(Snapshot()))
    {
      state := Reconciled();
    }

    /** The state the first loop of `tick` computes, visiting every discipline's slots. */
    method Reconciled() returns (st: map<string, Status>)
      requires WellNamed(pools)
      ensures st == Scheduling.Reconcile(Snapshot()).state
    {
      ghost var s := Snapshot();
      assert s.pools == pools && s.state == state && s.qbegin == qbegin;
      var waiting := QueueNames(qbegin);
      var running := AliveOccupants(pools);
      st := state;
      var todo := pools.Keys;
      ghost var done: set<string> := {};
      while todo != {}
        invariant todo <= s.pools.Keys && done == s.pools.Keys - todo
        invariant st == MarkedSoFar(s, DeadSoFar(s.pools, done, "", 0))
        decreases todo
      {
        var d :| d in todo;
        st := ReconcileSlots(d, done, waiting, running, st);
        todo := todo - {d};
        done := done + {d};
      }
      ReconciledAll(s);
    }

    /** The slots of one discipline visited by the first loop of `tick`, `st` being the
        state so far. */
    method ReconcileSlots(d: string, ghost done: set<string>, waiting: set<string>, running: set<string>,
                          st: map<string, Status>) returns (st': map<string, Status>)
      requires d in pools && d !in done && WellNamed(pools)
      requires waiting == QueueNames(qbegin) && running == AliveOccupants(pools)
      requires st == MarkedSoFar(Snapshot(), DeadSoFar(pools, done, "", 0))
      ensures st' == MarkedSoFar(Snapshot(), DeadSoFar(pools, done + {d}, "", 0))
    {
      ghost var s := Snapshot();
      var row := pools[d];
      st' := st;
      for i := 0 to |row|
        invariant st' == VisitRow(st, row[..i], waiting, running)
      {
        assert row[..i + 1][..i] == row[..i];
        if !row[i].alive {
          var pname := StudentOf(row[i].occupant);
          if pname in st' && pname !in waiting && pname !in running {
            st' := st'[pname := Finished];
          }
        }
      }
      assert row[..|row|] == row;
      DeadSoFarNext(s.pools, done, d, 0, "");
      VisitRowMarks(s, done, d, |row|);
      DeadSoFarNext(s.pools, done, d, |row|, "");
    }

    /** The last loop of `tick`: every slot, alive or not, loses one quantum of
        remaining time. */
    method Decrement()
      modifies this
      ensures Snapshot() == old(Snapshot()).(pools := Decremented(old(pools), q))
    {
      var p := pools;
      var todo := p.Keys;
      while todo != {}
        invariant todo <= p.Keys == pools.Keys
        invariant forall d :: d in pools ==> p[d] == if d in todo then pools[d] else DecrementedRow(pools[d], q)
        decreases todo
      {
        var d :| d in todo;
        var row := p[d];
        for k := 0 to |row|
          invariant |row| == |pools[d]|
          invariant forall j :: 0 <= j < |row| ==> row[j] == if j < k then pools[d][j].(rem := pools[d][j].rem - q) else pools[d][j]
        {
          row := row[k := row[k].(rem := row[k].rem - q)];
        }
        p := p[d := row];
        todo := todo - {d};
      }
      pools := p;
    }

    /** `tick` at elapsed time `e`, without the printed snapshot. */
    method Tick(e: int)
      requires Valid()
      modifies this
      ensures Snapshot() == Scheduling.Tick(old(Snapshot()), e) && Valid()
    {
      TickWellNamed(Snapshot(), e);
      Reconcile();
      var flag := e > q * delta;
      if flag {
        delta := delta + 1;
        Decrement();
      }
    }
  }

  /** Constructing a scheduler: `__init__`, whose last step is `prepare`. */
  method NewScheduler(profs: seq<Professor>, studs: seq<Student>, quantum: int) returns (s: Scheduler, r: Outcome)
    ensures fresh(s)
    ensures r == OutcomeOf(Scheduling.Prepare(Initial(profs, studs, quantum)))
    ensures r.Pass? ==> s.Snapshot() == Scheduling.Prepare(Initial(profs, studs, quantum)).value && s.Valid()
  {
    s := new Scheduler(profs, studs, quantum);
    r := s.Prepare();
  }
}
