/** The scheduler's decisions as functions of its state: construction, `prepare`,
    the arrival step, the slot searches, the placement passes of both `exec`
    methods, `push_student` and the bookkeeping of `tick`. Threads, locks and the
    clock are inputs: a slot records whether its thread is alive, the state records
    which students' locks are held, and the elapsed time is a parameter. */
module Scheduling {
  import opened Outcomes
  import opened Text
  import opened Students
  import opened Queue
  import opened Pools

  /** A student's state; the source writes -1, 0, 1 and 2. */
  datatype Status = NotArrived | Waiting | Running | Finished

  /** The fields of an `SJFnp`/`SJFp` object that scheduling reads and writes.
      `pools` merges `proc` and `now`; `locked` holds the names whose lock is taken. */
  datatype Sched = Sched(
    pools: map<string, seq<Slot>>,
    state: map<string, Status>,
    qbegin: seq<Student>,
    allstud: seq<Option<Student>>,
    locked: set<string>,
    delta: int,
    q: int)

  /** Every thread name has a '_', so `split('_')[1]` exists. */
  predicate WellNamed(pools: map<string, seq<Slot>>)
  {
    forall d, i :: d in pools && 0 <= i < |pools[d]| ==> '_' in pools[d][i].occupant
  }

  /** Every discipline a queued student still needs is offered by some professor. */
  predicate Offered(qbegin: seq<Student>, pools: map<string, seq<Slot>>)
  {
    forall k, j :: 0 <= k < |qbegin| && 0 <= j < |qbegin[k].discipline| ==> qbegin[k].discipline[j] in pools
  }

  predicate Ready(s: Sched)
  {
    WellNamed(s.pools) && Offered(s.qbegin, s.pools)
  }

  /** Same disciplines, same number of slots in each. */
  predicate SameShape(s: Sched, t: Sched)
  {
    t.pools.Keys == s.pools.Keys && forall d :: d in s.pools ==> |t.pools[d]| == |s.pools[d]|
  }

  // ---------------------------------------------------------------- construction

  function QueueNames(q: seq<Student>): set<string>
  {
    set x | x in q :: x.name
  }

  function StartingNow(studs: seq<Student>): seq<Student>
  {
    if studs == [] then []
    else (if studs[0].arrTime == 0 then [studs[0]] else []) + StartingNow(studs[1..])
  }

  function ArrivingLater(studs: seq<Student>): seq<Option<Student>>
  {
    if studs == [] then []
    else (if studs[0].arrTime != 0 then [Some(studs[0])] else []) + ArrivingLater(studs[1..])
  }

  /** `SJFnp.__init__` up to, not including, its call of `prepare`. */
  function Initial(profs: seq<Professor>, studs: seq<Student>, q: int): (r: Sched)
    ensures forall x :: x in studs ==> x.name in r.state
    ensures forall n :: n in r.state ==> r.state[n] == NotArrived
    ensures r.locked == {} && r.delta == 0 && r.q == q
  {
    Sched(InitialPools(profs),
          map n | n in QueueNames(studs) :: NotArrived,
          StartingNow(studs), ArrivingLater(studs), {}, 0, q)
  }

  // ---------------------------------------------------------------- prepare

  predicate SomeMissing(q: seq<Student>, pools: map<string, seq<Slot>>)
  {
    exists k, j :: 0 <= k < |q| && 0 <= j < |q[k].discipline| && q[k].discipline[j] !in pools
  }

  /** `prepare`: sort the queue by burst, fail if a queued student needs a discipline
      no professor offers, then drop the `None` arrivals and the students with no
      discipline left. */
  function Prepare(s: Sched): (r: Result<Sched>)
    ensures r.Ok? ==> Offered(r.value.qbegin, r.value.pools)
    ensures r.Ok? ==> r.value.pools == s.pools && r.value.state == s.state && r.value.locked == s.locked
    ensures r.Ok? ==> r.value.delta == s.delta && r.value.q == s.q
  {
    var sorted := SortByBurst(s.qbegin);
    if SomeMissing(sorted, s.pools) then Err(MissingDiscipline)
    else
      NonEmptySorted(sorted);
      assert forall k :: 0 <= k < |NonEmpty(sorted)| ==> NonEmpty(sorted)[k] in sorted;
      Ok(s.(qbegin := NonEmpty(sorted), allstud := Present(s.allstud)))
  }

  // ---------------------------------------------------------------- arrivals

  /** The students of `a` whose arrival time `e` has strictly passed, in order. */
  function Arrivals(a: seq<Option<Student>>, e: int): seq<Student>
  {
    if a == [] then []
    else
      var last := a[|a| - 1];
      Arrivals(a[..|a| - 1], e) + (if last.Some? && e > last.value.arrTime then [last.value] else [])
  }

  /** `allstud` after the arrival loop: every arrived entry overwritten with None. */
  function Departed(a: seq<Option<Student>>, e: int): seq<Option<Student>>
  {
    seq(|a|, i requires 0 <= i < |a| => if a[i].Some? && e > a[i].value.arrTime then None else a[i])
  }

  /** `state[s.name] = 0` for each arrival in turn. */
  function MarkWaiting(state: map<string, Status>, xs: seq<Student>): map<string, Status>
  {
    if xs == [] then state else MarkWaiting(state, xs[..|xs| - 1])[xs[|xs| - 1].name := Waiting]
  }

  /** The arrival loop that opens both `exec` methods, `e` being the elapsed time. */
  function Arrive(s: Sched, e: int): (r: Sched)
    ensures |r.qbegin| >= |s.qbegin| && r.qbegin[..|s.qbegin|] == s.qbegin
    ensures |r.allstud| == |s.allstud|
    ensures r.pools == s.pools && r.locked == s.locked && r.delta == s.delta && r.q == s.q
  {
    var xs := Arrivals(s.allstud, e);
    s.(qbegin := s.qbegin + xs, state := MarkWaiting(s.state, xs), allstud := Departed(s.allstud, e))
  }

  // ---------------------------------------------------------------- slot searches

  /** The states once `find_alive` has chosen slot `i` of `d`: the slot's former
      occupant, when it is a known student, is finished; nobody else changes. */
  function FinishOccupant(s: Sched, d: string, i: nat): (r: map<string, Status>)
    requires d in s.pools && i < |s.pools[d]| && '_' in s.pools[d][i].occupant
    ensures r.Keys == s.state.Keys
    ensures forall n :: n in s.state && n != StudentOf(s.pools[d][i].occupant) ==> r[n] == s.state[n]
  {
    var n := StudentOf(s.pools[d][i].occupant);
    if n in s.state then s.state[n := Finished] else s.state
  }

  /** `find_alive(d)`: the first slot whose thread is dead; its former occupant, when it
      is a known student, is marked finished. */
  function FindAlive(s: Sched, d: string): (r: (Option<nat>, Sched))
    requires d in s.pools && WellNamed(s.pools)
    ensures r.1 == s.(state := r.1.state)
    ensures r.0.Some? ==> r.0.value < |s.pools[d]| && !s.pools[d][r.0.value].alive
  {
    match FirstMatch(s.pools[d], Dead)
    case None => (None, s)
    case Some(i) => (Some(i), s.(state := FinishOccupant(s, d, i)))
  }

  /** `find_prior` and then, if it found nothing, `find_burst`. */
  function PreemptTarget(slots: seq<Slot>, p: int, b: int): (r: Option<nat>)
    ensures r.Some? ==> r.value < |slots|
  {
    match FirstMatch(slots, PrioAtMost(p))
    case Some(i) => Some(i)
    case None => FirstMatch(slots, LongerAtMostPrio(p, b))
  }

  // ---------------------------------------------------------------- placement

  function RemoveAt<T>(xs: seq<T>, j: nat): seq<T>
    requires j < |xs|
  {
    xs[..j] + xs[j + 1..]
  }

  /** Starting queue entry `k` on slot `i` of `d`, its `j`-th discipline, under thread
      name `name`: the student runs, holds its lock, the slot's `now` entry becomes
      `[rem_time, prior]` and the discipline leaves the student's list. */
  function Occupy(s: Sched, k: nat, j: nat, d: string, i: nat, name: string): (r: Sched)
    requires k < |s.qbegin| && j < |s.qbegin[k].discipline|
    requires d in s.pools && i < |s.pools[d]|
    ensures var n := s.qbegin[k].name; n in r.state && r.state[n] == Running && r.locked == s.locked + {n}
    ensures d in r.pools && i < |r.pools[d]| && r.pools[d][i].occupant == name && r.pools[d][i].alive
    ensures |r.qbegin| == |s.qbegin| && |r.qbegin[k].discipline| + 1 == |s.qbegin[k].discipline|
  {
    var st := s.qbegin[k];
    s.(state := s.state[st.name := Running],
       pools := s.pools[d := s.pools[d][i := Slot(name, true, st.remTime, st.prior)]],
       qbegin := s.qbegin[k := st.(discipline := RemoveAt(st.discipline, j))],
       locked := s.locked + {st.name})
  }

  lemma OccupyReady(s: Sched, k: nat, j: nat, d: string, i: nat, name: string)
    requires Ready(s) && '_' in name
    requires k < |s.qbegin| && j < |s.qbegin[k].discipline|
    requires d in s.pools && i < |s.pools[d]|
    ensures Ready(Occupy(s, k, j, d, i, name)) && SameShape(s, Occupy(s, k, j, d, i, name))
    ensures |Occupy(s, k, j, d, i, name).qbegin| == |s.qbegin|
  {
    var t := Occupy(s, k, j, d, i, name);
    var ds := s.qbegin[k].discipline;
    forall k', j' | 0 <= k' < |t.qbegin| && 0 <= j' < |t.qbegin[k'].discipline|
      ensures t.qbegin[k'].discipline[j'] in t.pools
    {
      if k' == k {
        if j' < j { assert t.qbegin[k'].discipline[j'] == ds[j']; }
        else { assert t.qbegin[k'].discipline[j'] == ds[j' + 1]; }
      }
    }
  }

  lemma NameHasSeparator(a: string, b: string)
    ensures '_' in a + "_" + b
  {
    assert (a + "_" + b)[|a|] == '_';
  }

  /** The inner loop of `SJFnp.exec` for queue entry `k`, from discipline `j` on: the
      first discipline with a dead slot wins. */
  function TryPlaceNP(s: Sched, k: nat, j: nat): (r: Result<Sched>)
    requires Ready(s) && k < |s.qbegin| && j <= |s.qbegin[k].discipline|
    ensures r.Ok? ==> Ready(r.value) && SameShape(s, r.value) && |r.value.qbegin| == |s.qbegin|
    ensures r.Ok? ==> r.value.allstud == s.allstud && r.value.delta == s.delta && r.value.q == s.q
    decreases |s.qbegin[k].discipline| - j
  {
    var st := s.qbegin[k];
    if j == |st.discipline| then Ok(s)
    else
      var d := st.discipline[j];
      if |s.pools[d]| == 0 then Err(EmptyPool(d))
      else
        var (found, s1) := FindAlive(s, d);
        match found
        case None => TryPlaceNP(s1, k, j + 1)
        case Some(i) =>
          var name := PlainName(ProfOf(s1.pools[d][i].occupant), st);
          NameHasSeparator(ProfOf(s1.pools[d][i].occupant), st.name);
          OccupyReady(s1, k, j, d, i, name);
          Ok(Occupy(s1, k, j, d, i, name))
  }

  /** The outer loop of `SJFnp.exec` from queue entry `k` on: entries whose lock is
      held are skipped. */
  function PassNP(s: Sched, k: nat): (r: Result<Sched>)
    requires Ready(s) && k <= |s.qbegin|
    ensures r.Ok? ==> Ready(r.value) && SameShape(s, r.value) && |r.value.qbegin| == |s.qbegin|
    ensures r.Ok? ==> r.value.allstud == s.allstud && r.value.delta == s.delta && r.value.q == s.q
    decreases |s.qbegin| - k
  {
    if k == |s.qbegin| then Ok(s)
    else if s.qbegin[k].name in s.locked then PassNP(s, k + 1)
    else
      match TryPlaceNP(s, k, 0)
      case Err(e) => Err(e)
      case Ok(s1) => PassNP(s1, k + 1)
  }

  /** `SJFnp.exec` at elapsed time `e`. */
  function ExecNP(s: Sched, e: int): (r: Result<Sched>)
    requires WellNamed(s.pools)
    ensures r.Ok? ==> Ready(r.value) && SameShape(s, r.value)
    ensures r.Ok? ==> r.value.delta == s.delta && r.value.q == s.q
  {
    match Prepare(Arrive(s, e))
    case Err(err) => Err(err)
    case Ok(s1) => PassNP(s1, 0)
  }

  /** `push_student(d, i)`: stop the occupant (its lock is released) and append the
      student parsed from its thread name, for discipline `d` and the slot's remaining
      time. */
  function PushStudent(s: Sched, d: string, i: nat): (r: Result<Sched>)
    requires d in s.pools && i < |s.pools[d]| && WellNamed(s.pools)
    ensures r.Ok? ==> r.value.locked == s.locked - {StudentOf(s.pools[d][i].occupant)}
    ensures r.Ok? ==> |r.value.qbegin| == |s.qbegin| + 1 && r.value.qbegin[|s.qbegin|].discipline == [d]
    ensures r.Err? ==> Decode(s.pools[d][i].occupant, d, s.pools[d][i].rem).None?
  {
    var x := s.pools[d][i];
    match Decode(x.occupant, d, x.rem)
    case None => Err(BadOccupant)
    case Some(st) => Ok(s.(locked := s.locked - {StudentOf(x.occupant)}, qbegin := s.qbegin + [st]))
  }

  lemma PushReady(s: Sched, d: string, i: nat)
    requires d in s.pools && i < |s.pools[d]| && Ready(s)
    ensures PushStudent(s, d, i).Ok? ==>
      var t := PushStudent(s, d, i).value;
      Ready(t) && t.pools == s.pools && t.state == s.state &&
      |t.qbegin| == |s.qbegin| + 1 && t.qbegin[..|s.qbegin|] == s.qbegin
  {
    if PushStudent(s, d, i).Ok? {
      var t := PushStudent(s, d, i).value;
      assert t.qbegin[|s.qbegin|].discipline == [d];
      assert t.qbegin[..|s.qbegin|] == s.qbegin;
    }
  }

  /** The inner loop of `SJFp.exec` for queue entry `k`, from discipline `j` on: a
      dead slot, else `find_prior`, else `find_burst`; a live chosen slot is evicted
      first. */
  function TryPlaceP(s: Sched, k: nat, j: nat): (r: Result<Sched>)
    requires Ready(s) && k < |s.qbegin| && j <= |s.qbegin[k].discipline|
    ensures r.Ok? ==> Ready(r.value) && SameShape(s, r.value) && |r.value.qbegin| >= |s.qbegin|
    ensures r.Ok? ==> r.value.allstud == s.allstud && r.value.delta == s.delta && r.value.q == s.q
    decreases |s.qbegin[k].discipline| - j
  {
    var st := s.qbegin[k];
    if j == |st.discipline| then Ok(s)
    else
      var d := st.discipline[j];
      if |s.pools[d]| == 0 then Err(EmptyPool(d))
      else
        var (found, s1) := FindAlive(s, d);
        var target := if found.Some? then found else PreemptTarget(s1.pools[d], st.prior, st.burst);
        match target
        case None => TryPlaceP(s1, k, j + 1)
        case Some(i) => TakeSlotP(s1, k, j, i)
  }

  /** Queue entry `k` takes slot `i` of its `j`-th discipline in the preemptive pass:
      it becomes running, a live occupant is pushed back to the queue, and the slot gets
      the name `prof + '_' + student + '_' + str(student)`. */
  function TakeSlotP(s: Sched, k: nat, j: nat, i: nat): (r: Result<Sched>)
    requires Ready(s) && k < |s.qbegin| && j < |s.qbegin[k].discipline|
    requires i < |s.pools[s.qbegin[k].discipline[j]]|
    ensures r.Ok? ==> Ready(r.value) && SameShape(s, r.value) && |r.value.qbegin| >= |s.qbegin|
    ensures r.Ok? ==> r.value.allstud == s.allstud && r.value.delta == s.delta && r.value.q == s.q
  {
    var st := s.qbegin[k];
    var d := st.discipline[j];
    var s2 := s.(state := s.state[st.name := Running]);
    var s3 := if s2.pools[d][i].alive then PushStudent(s2, d, i) else Ok(s2);
    PushReady(s2, d, i);
    match s3
    case Err(e) => Err(e)
    case Ok(s4) =>
      var name := EncodedName(ProfOf(s4.pools[d][i].occupant), st);
      assert s4.qbegin[k] == st;
      EncodedNameShape(ProfOf(s4.pools[d][i].occupant), st);
      NameHasSeparator(ProfOf(s4.pools[d][i].occupant), st.name + "_" + Encode(st));
      OccupyReady(s4, k, j, d, i, name);
      Ok(Occupy(s4, k, j, d, i, name))
  }

  /** The outer loop of `SJFp.exec` from queue entry `k` on. The queue grows while it
      is walked, so the walk may not end; `fuel` bounds how many entries it visits. */
  function PassP(s: Sched, k: nat, fuel: nat): (r: Result<Sched>)
    requires Ready(s) && k <= |s.qbegin|
    ensures r.Ok? ==> Ready(r.value) && SameShape(s, r.value) && |r.value.qbegin| >= |s.qbegin|
    ensures r.Ok? ==> r.value.allstud == s.allstud && r.value.delta == s.delta && r.value.q == s.q
    decreases fuel
  {
    if k == |s.qbegin| then Ok(s)
    else if fuel == 0 then Err(OutOfFuel)
    else if s.qbegin[k].name in s.locked then PassP(s, k + 1, fuel - 1)
    else
      match TryPlaceP(s, k, 0)
      case Err(e) => Err(e)
      case Ok(s1) => PassP(s1, k + 1, fuel - 1)
  }

  /** `SJFp.exec` at elapsed time `e`, visiting at most `fuel` queue entries. */
  function ExecP(s: Sched, e: int, fuel: nat): (r: Result<Sched>)
    requires WellNamed(s.pools)
    ensures r.Ok? ==> Ready(r.value) && SameShape(s, r.value)
    ensures r.Ok? ==> r.value.delta == s.delta && r.value.q == s.q
  {
    match Prepare(Arrive(s, e))
    case Err(err) => Err(err)
    case Ok(s1) => PassP(s1, 0, fuel)
  }

  // ---------------------------------------------------------------- tick

  /** The students named by the live threads. */
  function AliveOccupants(pools: map<string, seq<Slot>>): set<string>
  {
    set d, i | d in pools && 0 <= i < |pools[d]| && pools[d][i].alive && '_' in pools[d][i].occupant
      :: StudentOf(pools[d][i].occupant)
  }

  /** The students named by the dead threads. */
  function DeadOccupants(pools: map<string, seq<Slot>>): set<string>
  {
    set d, i | d in pools && 0 <= i < |pools[d]| && !pools[d][i].alive && '_' in pools[d][i].occupant
      :: StudentOf(pools[d][i].occupant)
  }

  /** The students `tick` marks finished: named by a dead thread, known, no longer
      queued and named by no live thread. */
  predicate Completes(s: Sched, n: string)
  {
    n in DeadOccupants(s.pools) && n !in QueueNames(s.qbegin) && n !in AliveOccupants(s.pools)
  }

  /** The first loop of `tick`. */
  function Reconcile(s: Sched): (r: Sched)
    ensures r.state.Keys == s.state.Keys
    ensures forall n :: n in s.state ==> r.state[n] == s.state[n] || r.state[n] == Finished
    ensures r == s.(state := r.state)
  {
    s.(state := map n | n in s.state :: if Completes(s, n) then Finished else s.state[n])
  }

  /** One discipline's slots, each with one quantum less remaining time. */
  function DecrementedRow(row: seq<Slot>, q: int): seq<Slot>
  {
    seq(|row|, i requires 0 <= i < |row| => row[i].(rem := row[i].rem - q))
  }

  /** Every slot's remaining time less one quantum. */
  function Decremented(pools: map<string, seq<Slot>>, q: int): map<string, seq<Slot>>
  {
    map d | d in pools :: DecrementedRow(pools[d], q)
  }

  /** `tick` at elapsed time `e`, without the printed snapshot. */
  function Tick(s: Sched, e: int): (r: Sched)
    ensures r.state.Keys == s.state.Keys && SameShape(s, r)
    ensures r.delta == s.delta || r.delta == s.delta + 1
    ensures r.qbegin == s.qbegin && r.allstud == s.allstud && r.locked == s.locked && r.q == s.q
  {
    var r := Reconcile(s);
    if e > s.q * s.delta then r.(delta := s.delta + 1, pools := Decremented(s.pools, s.q)) else r
  }
}
