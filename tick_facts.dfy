/** What `tick` does to the scheduler's state: students change only to finished,
    and only those no thread and no queue entry still holds; the quantum flag moves
    `delta` on by one and takes a quantum off every slot's remaining time. */
module TickFacts {
  import opened Students
  import opened Pools
  import opened Scheduling

  /** A student whose state `tick` changes becomes finished, was named by a dead
      thread, is not queued and is named by no live thread; no student is added. */
  lemma TickOnlyFinishes(s: Sched, e: int, n: string)
    requires n in s.state
    ensures Tick(s, e).state.Keys == s.state.Keys
    ensures Tick(s, e).state[n] != s.state[n] ==>
      && Tick(s, e).state[n] == Finished
      && n in DeadOccupants(s.pools)
      && n !in QueueNames(s.qbegin)
      && n !in AliveOccupants(s.pools)
  {
  }

  /** Conversely, every known student named by a dead thread and held by nothing else
      is finished after `tick`. */
  lemma TickFinishesCompleted(s: Sched, e: int, d: string, i: nat)
    requires d in s.pools && i < |s.pools[d]|
    requires var x := s.pools[d][i]; !x.alive && '_' in x.occupant
    requires var n := StudentOf(s.pools[d][i].occupant);
      n in s.state && n !in QueueNames(s.qbegin) && n !in AliveOccupants(s.pools)
    ensures Tick(s, e).state[StudentOf(s.pools[d][i].occupant)] == Finished
  {
    var n := StudentOf(s.pools[d][i].occupant);
    assert n in DeadOccupants(s.pools);
  }

  /** A student still running on a live thread keeps its state. */
  lemma TickKeepsLive(s: Sched, e: int, d: string, i: nat)
    requires d in s.pools && i < |s.pools[d]|
    requires var x := s.pools[d][i]; x.alive && '_' in x.occupant && StudentOf(x.occupant) in s.state
    ensures Tick(s, e).state[StudentOf(s.pools[d][i].occupant)] == s.state[StudentOf(s.pools[d][i].occupant)]
  {
    assert StudentOf(s.pools[d][i].occupant) in AliveOccupants(s.pools);
  }

  /** When the quantum has passed, `delta` moves on by one and every slot loses
      exactly one quantum of remaining time, keeping its occupant, liveness and
      priority; otherwise the slots and `delta` are left alone. Queue, arrivals,
      locks and the quantum never change. */
  lemma TickTime(s: Sched, e: int)
    ensures var t := Tick(s, e);
      t.qbegin == s.qbegin && t.allstud == s.allstud && t.locked == s.locked && t.q == s.q
    ensures var t := Tick(s, e);
      SameShape(s, t) &&
      (e > s.q * s.delta ==> t.delta == s.delta + 1) &&
      (e <= s.q * s.delta ==> t.delta == s.delta && t.pools == s.pools)
    ensures var t := Tick(s, e);
      forall d, i :: d in s.pools && 0 <= i < |s.pools[d]| ==>
        var x, y := s.pools[d][i], t.pools[d][i];
        && y.occupant == x.occupant && y.alive == x.alive && y.prio == x.prio
        && y.rem == (if e > s.q * s.delta then x.rem - s.q else x.rem)
  {
  }

  /** `tick` keeps the thread names well formed. */
  lemma TickWellNamed(s: Sched, e: int)
    requires WellNamed(s.pools)
    ensures WellNamed(Tick(s, e).pools)
  {
    TickTime(s, e);
  }
}
