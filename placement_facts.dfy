/** What the placement passes of both `exec` methods promise. */
module PlacementFacts {
  import opened Outcomes
  import opened Text
  import opened Students
  import opened Pools
  import opened Scheduling

  /** No slot whose thread was alive has been overwritten, and the slot counts stay. */
  predicate Untouched(s: Sched, t: Sched)
  {
    SameShape(s, t) &&
    forall d, i :: d in s.pools && 0 <= i < |s.pools[d]| && s.pools[d][i].alive ==> t.pools[d][i] == s.pools[d][i]
  }

  /** `y` is `x`, or `x` with exactly one discipline entry removed. */
  predicate DropsAtMostOne(x: Student, y: Student)
  {
    y == x || exists j :: 0 <= j < |x.discipline| && y == x.(discipline := RemoveAt(x.discipline, j))
  }

  /** All slots of `d` are taken by live threads. */
  predicate Full(s: Sched, d: string)
    requires d in s.pools
  {
    forall i :: 0 <= i < |s.pools[d]| ==> s.pools[d][i].alive
  }

  lemma UntouchedTrans(s: Sched, t: Sched, u: Sched)
    requires Untouched(s, t) && Untouched(t, u)
    ensures Untouched(s, u)
  {
  }

  /** `find_alive(d)` finds the least slot whose thread is dead, or nothing exactly when
      every thread of `d` is alive; it marks that slot's former occupant finished when
      the occupant is a known student, and changes nothing else. */
  lemma FindAliveSpec(s: Sched, d: string)
    requires d in s.pools && WellNamed(s.pools)
    ensures var r := FindAlive(s, d).0;
      (r.None? <==> Full(s, d)) &&
      (r.Some? ==> r.value < |s.pools[d]| && !s.pools[d][r.value].alive &&
                   forall j :: 0 <= j < r.value ==> s.pools[d][j].alive)
    ensures var (r, t) := FindAlive(s, d);
      && t == s.(state := t.state)
      && (r.None? ==> t.state == s.state)
      && (r.Some? ==>
            var n := StudentOf(s.pools[d][r.value].occupant);
            t.state == if n in s.state then s.state[n := Finished] else s.state)
  {
    FirstMatchLeast(s.pools[d], Dead);
  }

  /** One student's turn in the non-preemptive pass: no live thread is replaced, no
      other queue entry changes, the student loses at most one discipline, and no
      lock is released. */
  lemma {:induction false} TryPlaceNPEffect(s: Sched, k: nat, j: nat)
    requires Ready(s) && k < |s.qbegin| && j <= |s.qbegin[k].discipline|
    ensures TryPlaceNP(s, k, j).Ok? ==>
      var t := TryPlaceNP(s, k, j).value;
      && Untouched(s, t) && s.locked <= t.locked
      && |t.qbegin| == |s.qbegin|
      && (forall k' :: 0 <= k' < |s.qbegin| && k' != k ==> t.qbegin[k'] == s.qbegin[k'])
      && DropsAtMostOne(s.qbegin[k], t.qbegin[k])
    decreases |s.qbegin[k].discipline| - j
  {
    var st := s.qbegin[k];
    if j < |st.discipline| {
      var d := st.discipline[j];
      if |s.pools[d]| > 0 {
        var (found, s1) := FindAlive(s, d);
        if found.None? {
          TryPlaceNPEffect(s1, k, j + 1);
        } else {
          var t := TryPlaceNP(s, k, j).value;
          assert t.qbegin[k] == st.(discipline := RemoveAt(st.discipline, j));
        }
      }
    }
  }

  /** Queue entry `k` took the first dead slot of its `j`-th discipline, which now
      records its remaining time and priority under the name `prof + '_' + student`; the
      slot's former occupant is finished and the student running, every other state
      stays, the student holds its lock, and that one discipline left its list. */
  predicate TookFirstFree(s: Sched, t: Sched, k: nat, j: nat)
    requires Ready(s) && k < |s.qbegin| && j < |s.qbegin[k].discipline|
  {
    var st := s.qbegin[k];
    var d := st.discipline[j];
    var f := FirstMatch(s.pools[d], Dead);
    && f.Some? && k < |t.qbegin|
    && t.qbegin[k] == st.(discipline := RemoveAt(st.discipline, j))
    && t.pools == s.pools[d := s.pools[d][f.value := Slot(PlainName(ProfOf(s.pools[d][f.value].occupant), st), true, st.remTime, st.prior)]]
    && st.name in t.state && t.state[st.name] == Running
    && t.state == FinishOccupant(s, d, f.value)[st.name := Running]
    && t.locked == s.locked + {st.name}
  }

  /** The result of one non-preemptive turn from discipline `j` on: if the student's
      entry is unchanged, every one of those disciplines was full and nothing changed;
      otherwise the first of them with a dead slot was taken. */
  ghost predicate NPTurnFrom(s: Sched, k: nat, j: nat, t: Sched)
    requires Ready(s) && k < |s.qbegin| && j <= |s.qbegin[k].discipline| && k < |t.qbegin|
  {
    var st := s.qbegin[k];
    if t.qbegin[k] == st then
      t == s && forall j' :: j <= j' < |st.discipline| ==> Full(s, st.discipline[j'])
    else
      exists j' :: j <= j' < |st.discipline| &&
        (forall j'' :: j <= j'' < j' ==> Full(s, st.discipline[j''])) && TookFirstFree(s, t, k, j')
  }

  /** A discipline found full extends the turn from the next discipline back by one. */
  lemma NPTurnFull(s: Sched, k: nat, j: nat, t: Sched)
    requires Ready(s) && k < |s.qbegin| && j < |s.qbegin[k].discipline| && k < |t.qbegin|
    requires Full(s, s.qbegin[k].discipline[j])
    requires NPTurnFrom(s, k, j + 1, t)
    ensures NPTurnFrom(s, k, j, t)
  {
    var st := s.qbegin[k];
    if t.qbegin[k] != st {
      var j' :| j + 1 <= j' < |st.discipline| &&
        (forall j'' :: j + 1 <= j'' < j' ==> Full(s, st.discipline[j''])) && TookFirstFree(s, t, k, j');
      FullBack(s, st, j, j');
    } else {
      FullBack(s, st, j, |st.discipline|);
    }
  }

  /** A full discipline extends a run of full disciplines back by one. */
  lemma FullBack(s: Sched, st: Student, j: nat, j': nat)
    requires j < j' <= |st.discipline|
    requires forall d :: d in st.discipline ==> d in s.pools
    requires Full(s, st.discipline[j])
    requires forall j'' :: j + 1 <= j'' < j' ==> Full(s, st.discipline[j''])
    ensures forall j'' :: j <= j'' < j' ==> Full(s, st.discipline[j''])
  {
    forall j'' | j <= j'' < j' ensures Full(s, st.discipline[j'']) {
      if j'' > j {
        assert j + 1 <= j'' < j';
      }
    }
  }

  /** The first discipline (from `j` on) with a dead slot wins. If the student's entry is
      unchanged, every one of its disciplines was full. */
  lemma {:induction false} FirstFreeWins(s: Sched, k: nat, j: nat)
    requires Ready(s) && k < |s.qbegin| && j <= |s.qbegin[k].discipline|
    ensures TryPlaceNP(s, k, j).Ok? ==>
      k < |TryPlaceNP(s, k, j).value.qbegin| && NPTurnFrom(s, k, j, TryPlaceNP(s, k, j).value)
    decreases |s.qbegin[k].discipline| - j
  {
    var st := s.qbegin[k];
    if j < |st.discipline| {
      var d := st.discipline[j];
      if |s.pools[d]| > 0 {
        FirstMatchLeast(s.pools[d], Dead);
        var (found, s1) := FindAlive(s, d);
        if found.None? {
          assert s1 == s;
          assert TryPlaceNP(s, k, j) == TryPlaceNP(s, k, j + 1);
          FirstFreeWins(s, k, j + 1);
          if TryPlaceNP(s, k, j).Ok? {
            NPTurnFull(s, k, j, TryPlaceNP(s, k, j).value);
          }
        } else {
          var i := found.value;
          var name := PlainName(ProfOf(s1.pools[d][i].occupant), st);
          assert TryPlaceNP(s, k, j) == Ok(Occupy(s1, k, j, d, i, name));
          var t := Occupy(s1, k, j, d, i, name);
          assert |t.qbegin[k].discipline| < |st.discipline|;
          assert TookFirstFree(s, t, k, j);
        }
      }
    }
  }

  /** What the non-preemptive pass from queue entry `k` on leaves: no live thread is
      replaced, so nobody is evicted; no lock is released; the queue keeps its length
      and its entries before `k`; an entry whose lock was held is left alone; every entry
      loses at most one discipline. */
  predicate NPPassed(s: Sched, t: Sched, k: nat)
  {
    && Untouched(s, t) && s.locked <= t.locked
    && |t.qbegin| == |s.qbegin|
    && (forall k' :: 0 <= k' < k && k' < |s.qbegin| ==> t.qbegin[k'] == s.qbegin[k'])
    && (forall k' :: k <= k' < |s.qbegin| && s.qbegin[k'].name in s.locked ==> t.qbegin[k'] == s.qbegin[k'])
    && (forall k' :: 0 <= k' < |s.qbegin| ==> DropsAtMostOne(s.qbegin[k'], t.qbegin[k']))
  }

  /** A turn followed by the rest of the pass is the pass. */
  lemma NPPassedCompose(s: Sched, s1: Sched, t: Sched, k: nat)
    requires k < |s.qbegin| && s.qbegin[k].name !in s.locked
    requires Untouched(s, s1) && s.locked <= s1.locked && |s1.qbegin| == |s.qbegin|
    requires forall k' :: 0 <= k' < |s.qbegin| && k' != k ==> s1.qbegin[k'] == s.qbegin[k']
    requires DropsAtMostOne(s.qbegin[k], s1.qbegin[k])
    requires NPPassed(s1, t, k + 1)
    ensures NPPassed(s, t, k)
  {
    UntouchedTrans(s, s1, t);
    forall k' | 0 <= k' < |s.qbegin| ensures DropsAtMostOne(s.qbegin[k'], t.qbegin[k']) {
      if k' != k {
        assert s1.qbegin[k'] == s.qbegin[k'];
      }
    }
    forall k' | k <= k' < |s.qbegin| && s.qbegin[k'].name in s.locked
      ensures t.qbegin[k'] == s.qbegin[k']
    {
      assert k' != k;
      assert s1.qbegin[k'] == s.qbegin[k'];
      assert s1.qbegin[k'].name in s1.locked;
    }
  }

  /** An unlocked entry's turn followed by the rest of the pass. */
  lemma PassNPTurn(s: Sched, k: nat)
    requires Ready(s) && k < |s.qbegin| && s.qbegin[k].name !in s.locked && TryPlaceNP(s, k, 0).Ok?
    requires var s1 := TryPlaceNP(s, k, 0).value;
      PassNP(s1, k + 1).Ok? ==> NPPassed(s1, PassNP(s1, k + 1).value, k + 1)
    ensures PassNP(s, k).Ok? ==> NPPassed(s, PassNP(s, k).value, k)
  {
    var s1 := TryPlaceNP(s, k, 0).value;
    TryPlaceNPEffect(s, k, 0);
    assert PassNP(s, k) == PassNP(s1, k + 1);
    if PassNP(s1, k + 1).Ok? {
      NPPassedCompose(s, s1, PassNP(s1, k + 1).value, k);
    }
  }

  /** The non-preemptive pass from queue entry `k` on, as `NPPassed` describes it. */
  lemma {:induction false} PassNPEffect(s: Sched, k: nat)
    requires Ready(s) && k <= |s.qbegin|
    ensures PassNP(s, k).Ok? ==> NPPassed(s, PassNP(s, k).value, k)
    decreases |s.qbegin| - k
  {
    if k == |s.qbegin| {
      assert PassNP(s, k) == Ok(s);
    } else if s.qbegin[k].name in s.locked {
      PassNPEffect(s, k + 1);
    } else if TryPlaceNP(s, k, 0).Ok? {
      PassNPEffect(TryPlaceNP(s, k, 0).value, k + 1);
      PassNPTurn(s, k);
    }
  }

  /** A whole non-preemptive `exec`: nobody is evicted and slot counts stay. */
  lemma ExecNPEvictsNobody(s: Sched, e: int)
    requires WellNamed(s.pools)
    ensures ExecNP(s, e).Ok? ==> Untouched(s, ExecNP(s, e).value)
  {
    var a := Arrive(s, e);
    if Prepare(a).Ok? {
      PassNPEffect(Prepare(a).value, 0);
      if ExecNP(s, e).Ok? {
        UntouchedTrans(s, a, ExecNP(s, e).value);
      }
    }
  }

  /** Every slot other than slot `i` of `d` is unchanged, and the slot counts stay. */
  predicate OnlySlotChanged(s: Sched, t: Sched, d: string, i: nat)
  {
    SameShape(s, t) &&
    forall d', i' :: d' in s.pools && 0 <= i' < |s.pools[d']| && (d', i') != (d, i) ==> t.pools[d'][i'] == s.pools[d'][i']
  }

  /** Slot `i` of `d` taken from a live thread: the discipline was full, the occupant's
      priority is at most the candidate's and it is the first such slot (`find_prior`;
      `find_burst` never decides), the occupant is parsed from its thread name and
      appended to the queue, its lock is released, and no other slot changes. */
  predicate Evicted(s: Sched, t: Sched, k: nat, d: string, i: nat)
    requires k < |s.qbegin|
  {
    var st := s.qbegin[k];
    && d in s.pools && i < |s.pools[d]| && Full(s, d)
    && FirstMatch(s.pools[d], PrioAtMost(st.prior)) == Some(i)
    && s.pools[d][i].prio <= st.prior
    && '_' in s.pools[d][i].occupant
    && |t.qbegin| == |s.qbegin| + 1
    && Decode(s.pools[d][i].occupant, d, s.pools[d][i].rem) == Some(t.qbegin[|s.qbegin|])
    && t.locked == (s.locked - {StudentOf(s.pools[d][i].occupant)}) + {st.name}
    && OnlySlotChanged(s, t, d, i)
  }

  /** In the preemptive pass discipline `j` of student `st` is passed over: every slot
      is alive, and neither `find_prior` nor `find_burst` finds one. */
  predicate Skipped(s: Sched, st: Student, j: nat)
    requires j < |st.discipline|
  {
    var d := st.discipline[j];
    d in s.pools && Full(s, d) && PreemptTarget(s.pools[d], st.prior, st.burst).None?
  }

  /** Queue entry `k` took slot `i` of its `j`-th discipline in the preemptive pass: the
      slot now records its remaining time and priority under the name
      `prof + '_' + student + '_' + str(student)`, the student is running and holds its
      lock, and exactly that discipline left its list. */
  predicate TookSlotP(s: Sched, t: Sched, k: nat, j: nat, i: nat)
    requires k < |s.qbegin| && j < |s.qbegin[k].discipline|
  {
    var st := s.qbegin[k];
    var d := st.discipline[j];
    && d in s.pools && i < |s.pools[d]| && k < |t.qbegin| && d in t.pools && i < |t.pools[d]|
    && t.qbegin[k] == st.(discipline := RemoveAt(st.discipline, j))
    && t.pools[d][i] == Slot(EncodedName(ProfOf(s.pools[d][i].occupant), st), true, st.remTime, st.prior)
    && st.name in t.state && t.state[st.name] == Running
    && st.name in t.locked
  }

  /** Queue entry `k`, looking at its disciplines from `j0` on, passed over those before
      `j` and took slot `i` of discipline `j`: the first dead slot, whose former occupant
      is finished and nobody evicted, or else, the discipline being full, the slot
      `find_prior` or `find_burst` found, whose occupant is evicted. The other old
      entries and every other student's state stay. */
  ghost predicate PTaken(s: Sched, k: nat, t: Sched, j0: nat, j: nat, i: nat)
    requires k < |s.qbegin|
  {
    var st := s.qbegin[k];
    && j0 <= j < |st.discipline|
    && (forall j' :: j0 <= j' < j ==> Skipped(s, st, j'))
    && TakenAt(s, k, t, j, i)
  }

  /** The part of `PTaken` that does not depend on where the turn started. */
  predicate TakenAt(s: Sched, k: nat, t: Sched, j: nat, i: nat)
    requires k < |s.qbegin| && j < |s.qbegin[k].discipline|
  {
    var st := s.qbegin[k];
    && TookSlotP(s, t, k, j, i)
    && |t.qbegin| >= |s.qbegin|
    && (forall k' :: 0 <= k' < |s.qbegin| && k' != k ==> t.qbegin[k'] == s.qbegin[k'])
    && (var d := st.discipline[j];
        if s.pools[d][i].alive then
          && PreemptTarget(s.pools[d], st.prior, st.burst) == Some(i) && Evicted(s, t, k, d, i)
          && t.state == s.state[st.name := Running]
        else
          && FirstMatch(s.pools[d], Dead) == Some(i)
          && |t.qbegin| == |s.qbegin| && t.locked == s.locked + {st.name}
          && OnlySlotChanged(s, t, d, i)
          && '_' in s.pools[d][i].occupant
          && t.state == FinishOccupant(s, d, i)[st.name := Running])
  }

  /** The result of one preemptive turn from discipline `j0` on: either every one of
      those disciplines was passed over and nothing changed, or the student took a slot
      as `PTaken` describes. */
  ghost predicate PTurnFrom(s: Sched, k: nat, j0: nat, t: Sched)
    requires k < |s.qbegin|
  {
    var st := s.qbegin[k];
    || (t == s && forall j' :: j0 <= j' < |st.discipline| ==> Skipped(s, st, j'))
    || exists j, i :: PTaken(s, k, t, j0, j, i)
  }

  /** `find_alive` choosing the first dead slot, then taking it, always succeeds and
      evicts nobody. */
  lemma TakeDeadSlot(s: Sched, k: nat, j: nat, i: nat)
    requires Ready(s) && k < |s.qbegin| && j < |s.qbegin[k].discipline|
    requires var d := s.qbegin[k].discipline[j]; FirstMatch(s.pools[d], Dead) == Some(i)
    ensures var s1 := FindAlive(s, s.qbegin[k].discipline[j]).1;
      TakeSlotP(s1, k, j, i).Ok? && PTaken(s, k, TakeSlotP(s1, k, j, i).value, j, j, i)
  {
    var st := s.qbegin[k];
    var d := st.discipline[j];
    var s1 := FindAlive(s, d).1;
    assert s1 == s.(state := FinishOccupant(s, d, i));
    var name := EncodedName(ProfOf(s1.pools[d][i].occupant), st);
    var t := Occupy(s1.(state := s1.state[st.name := Running]), k, j, d, i, name);
    assert TakeSlotP(s1, k, j, i) == Ok(t);
    assert t.qbegin[k] == st.(discipline := RemoveAt(st.discipline, j));
    assert TookSlotP(s, t, k, j, i);
  }

  /** Taking a live slot that `find_prior` or `find_burst` chose in a full discipline
      evicts its occupant, and the slot is the one `find_prior` chose. */
  lemma TakeLiveSlot(s: Sched, k: nat, j: nat, i: nat)
    requires Ready(s) && k < |s.qbegin| && j < |s.qbegin[k].discipline|
    requires var st := s.qbegin[k]; var d := st.discipline[j];
      Full(s, d) && PreemptTarget(s.pools[d], st.prior, st.burst) == Some(i)
    ensures TakeSlotP(s, k, j, i).Ok? ==> PTaken(s, k, TakeSlotP(s, k, j, i).value, j, j, i)
  {
    var st := s.qbegin[k];
    var d := st.discipline[j];
    BurstRuleAfterPrioRule(s.pools[d], st.prior, st.burst);
    if TakeSlotP(s, k, j, i).Ok? {
      var t := TakeSlotP(s, k, j, i).value;
      TakeLiveUnfold(s, k, j, i);
      assert Evicted(s, t, k, d, i) by {
        assert FirstMatch(s.pools[d], PrioAtMost(st.prior)) == Some(i);
      }
    }
  }

  /** Taking a live slot, step by step: the student runs, the occupant is pushed
      back, and the student occupies the slot. */
  lemma TakeLiveUnfold(s: Sched, k: nat, j: nat, i: nat)
    requires Ready(s) && k < |s.qbegin| && j < |s.qbegin[k].discipline|
    requires var d := s.qbegin[k].discipline[j]; i < |s.pools[d]| && s.pools[d][i].alive
    ensures var st := s.qbegin[k]; var d := st.discipline[j];
      TakeSlotP(s, k, j, i).Ok? ==>
        var t := TakeSlotP(s, k, j, i).value;
        && TookSlotP(s, t, k, j, i)
        && t.state == s.state[st.name := Running]
        && |t.qbegin| == |s.qbegin| + 1
        && (forall k' :: 0 <= k' < |s.qbegin| && k' != k ==> t.qbegin[k'] == s.qbegin[k'])
        && Decode(s.pools[d][i].occupant, d, s.pools[d][i].rem) == Some(t.qbegin[|s.qbegin|])
        && t.locked == (s.locked - {StudentOf(s.pools[d][i].occupant)}) + {st.name}
        && OnlySlotChanged(s, t, d, i)
  {
    var st := s.qbegin[k];
    var d := st.discipline[j];
    if TakeSlotP(s, k, j, i).Ok? {
      var s2 := s.(state := s.state[st.name := Running]);
      PushReady(s2, d, i);
      var s4 := PushStudent(s2, d, i).value;
      var name := EncodedName(ProfOf(s4.pools[d][i].occupant), st);
      var t := Occupy(s4, k, j, d, i, name);
      assert TakeSlotP(s, k, j, i) == Ok(t);
      assert t.qbegin[k] == st.(discipline := RemoveAt(st.discipline, j));
    }
  }

  /** A passed-over discipline extends a run of passed-over disciplines back by one. */
  lemma SkippedBack(s: Sched, k: nat, j0: nat, j: nat)
    requires k < |s.qbegin| && j0 < |s.qbegin[k].discipline| && Skipped(s, s.qbegin[k], j0)
    requires j <= |s.qbegin[k].discipline|
    requires forall j' :: j0 + 1 <= j' < j ==> Skipped(s, s.qbegin[k], j')
    ensures forall j' :: j0 <= j' < j ==> Skipped(s, s.qbegin[k], j')
  {
  }

  /** A passed-over discipline extends the turn from the next discipline back by one. */
  lemma PTurnSkip(s: Sched, k: nat, j0: nat, t: Sched)
    requires k < |s.qbegin| && j0 < |s.qbegin[k].discipline| && Skipped(s, s.qbegin[k], j0)
    requires PTurnFrom(s, k, j0 + 1, t)
    ensures PTurnFrom(s, k, j0, t)
  {
    var j1 := j0 + 1;
    if exists j, i :: PTaken(s, k, t, j1, j, i) {
      var j, i :| PTaken(s, k, t, j1, j, i);
      SkippedBack(s, k, j0, j);
      assert PTaken(s, k, t, j0, j, i);
    } else {
      SkippedBack(s, k, j0, |s.qbegin[k].discipline|);
    }
  }

  /** A discipline where nothing is dead and `find_prior`, `find_burst` find nothing
      is passed over, and nothing changes. */
  lemma TryPlacePSkip(s: Sched, k: nat, j: nat)
    requires Ready(s) && k < |s.qbegin| && j < |s.qbegin[k].discipline|
    requires |s.pools[s.qbegin[k].discipline[j]]| > 0
    requires var st := s.qbegin[k]; var (found, s1) := FindAlive(s, st.discipline[j]);
      found.None? && PreemptTarget(s1.pools[st.discipline[j]], st.prior, st.burst).None?
    ensures Skipped(s, s.qbegin[k], j)
    ensures FindAlive(s, s.qbegin[k].discipline[j]).1 == s
    ensures TryPlaceP(s, k, j) == TryPlaceP(s, k, j + 1)
  {
    FirstMatchLeast(s.pools[s.qbegin[k].discipline[j]], Dead);
  }

  /** A discipline where a slot was chosen is where the turn ends, with the student on
      that slot. */
  lemma TryPlacePTake(s: Sched, k: nat, j: nat)
    requires Ready(s) && k < |s.qbegin| && j < |s.qbegin[k].discipline|
    requires |s.pools[s.qbegin[k].discipline[j]]| > 0
    requires var st := s.qbegin[k]; var (found, s1) := FindAlive(s, st.discipline[j]);
      found.Some? || PreemptTarget(s1.pools[st.discipline[j]], st.prior, st.burst).Some?
    ensures TryPlaceP(s, k, j).Ok? ==> PTurnFrom(s, k, j, TryPlaceP(s, k, j).value)
  {
    var st := s.qbegin[k];
    var d := st.discipline[j];
    var (found, s1) := FindAlive(s, d);
    FirstMatchLeast(s.pools[d], Dead);
    var i;
    if found.Some? {
      i := found.value;
      assert TryPlaceP(s, k, j) == TakeSlotP(s1, k, j, i);
      TakeDeadSlot(s, k, j, i);
    } else {
      i := PreemptTarget(s1.pools[d], st.prior, st.burst).value;
      assert s1 == s;
      assert TryPlaceP(s, k, j) == TakeSlotP(s, k, j, i);
      TakeLiveSlot(s, k, j, i);
    }
    if TryPlaceP(s, k, j).Ok? {
      assert PTaken(s, k, TryPlaceP(s, k, j).value, j, j, i);
    }
  }

  /** One student's turn in the preemptive pass: the disciplines are looked at in order,
      those passed over are full with no `find_prior`/`find_burst` match, and the first
      other one is where the student takes a slot, either a dead one, evicting nobody, or
      a live one whose occupant it evicts as `Evicted` describes. */
  lemma {:induction false} TryPlacePEffect(s: Sched, k: nat, j: nat)
    requires Ready(s) && k < |s.qbegin| && j <= |s.qbegin[k].discipline|
    ensures TryPlaceP(s, k, j).Ok? ==> PTurnFrom(s, k, j, TryPlaceP(s, k, j).value)
    decreases |s.qbegin[k].discipline| - j
  {
    var st := s.qbegin[k];
    if j == |st.discipline| {
      assert TryPlaceP(s, k, j) == Ok(s);
    } else if |s.pools[st.discipline[j]]| == 0 {
      assert TryPlaceP(s, k, j).Err?;
    } else {
      var d := st.discipline[j];
      var (found, s1) := FindAlive(s, d);
      if found.None? && PreemptTarget(s1.pools[d], st.prior, st.burst).None? {
        TryPlacePSkip(s, k, j);
        TryPlacePEffect(s, k, j + 1);
        if TryPlaceP(s, k, j).Ok? {
          PTurnSkip(s, k, j, TryPlaceP(s, k, j).value);
        }
      } else {
        TryPlacePTake(s, k, j);
      }
    }
  }

  /** `push_student` on a thread name built by the preemptive pass: the appended student
      has the evicted student's name, group and priority, the single discipline `d`,
      burst and remaining time equal to the slot's remaining time, and the arrival time
      as `__str__` wrote it (times 1000); the evicted student's lock is released. */
  lemma PushRoundTrip(s: Sched, d: string, i: nat, prof: string, x: Student)
    requires d in s.pools && i < |s.pools[d]| && WellNamed(s.pools)
    requires s.pools[d][i].occupant == EncodedName(prof, x) && Clean(prof, x)
    ensures PushStudent(s, d, i) ==
      Ok(s.(locked := s.locked - {x.name},
            qbegin := s.qbegin + [NewStudent(x.name, x.group, [d], s.pools[d][i].rem, x.prior, x.arrTime * 1000)]))
  {
    EncodedNameRoundTrip(prof, x, d, s.pools[d][i].rem);
  }

  /** The situation the preemptive pass cannot leave: discipline `d` has one slot, held
      by a live thread whose name decodes to `x` (as `push_student` would parse it), and
      the last queue entry is `y`, who needs `d`, is not locked, and has the same
      priority as `x`. */
  predicate Contended(s: Sched, k: nat, d: string, prof: string, x: Student, y: Student)
  {
    && Ready(s) && k + 1 == |s.qbegin| && s.qbegin[k] == y
    && d in s.pools && |s.pools[d]| == 1
    && (var slot := s.pools[d][0];
        && slot.alive && slot.prio == x.prior && '_' in slot.occupant
        && ProfOf(slot.occupant) == prof && StudentOf(slot.occupant) == x.name
        && Decode(slot.occupant, d, slot.rem) == Some(NewStudent(x.name, x.group, [d], slot.rem, x.prior, x.arrTime * 1000)))
    && y.discipline == [d] && y.prior == x.prior && y.name !in s.locked && x.name != y.name
    && Clean(prof, x) && Clean(prof, y) && '_' !in d && '\n' !in d
  }

  /** A thread name built by the preemptive pass gives the situation above. */
  lemma ContendedFromName(s: Sched, k: nat, d: string, prof: string, x: Student, y: Student)
    requires Ready(s) && k + 1 == |s.qbegin| && s.qbegin[k] == y
    requires d in s.pools && |s.pools[d]| == 1
    requires s.pools[d][0] == Slot(EncodedName(prof, x), true, x.remTime, x.prior)
    requires y.discipline == [d] && y.prior == x.prior && y.name !in s.locked && x.name != y.name
    requires Clean(prof, x) && Clean(prof, y) && '_' !in d && '\n' !in d
    ensures Contended(s, k, d, prof, x, y)
  {
    EncodedNameRoundTrip(prof, x, d, x.remTime);
  }

  /** `find_prior` accepts an equal priority, so `y` evicts `x`, and `x`, pushed back
      behind `y`, is in the same situation with the roles exchanged. */
  lemma ContendedStep(s: Sched, k: nat, d: string, prof: string, x: Student, y: Student) returns (t: Sched, x': Student)
    requires Contended(s, k, d, prof, x, y)
    ensures Ready(s) && k < |s.qbegin| && s.qbegin[k].name !in s.locked
    ensures x' == NewStudent(x.name, x.group, [d], s.pools[d][0].rem, x.prior, x.arrTime * 1000)
    ensures TryPlaceP(s, k, 0) == Ok(t) && Contended(t, k + 1, d, prof, y, x')
  {
    var slots := s.pools[d];
    assert slots[1..] == [];
    assert FirstMatch(slots, Dead) == None;
    assert FirstMatch(slots, PrioAtMost(y.prior)) == Some(0);
    var s2 := s.(state := s.state[y.name := Running]);
    x' := NewStudent(x.name, x.group, [d], slots[0].rem, x.prior, x.arrTime * 1000);
    var s4 := s2.(locked := s2.locked - {x.name}, qbegin := s2.qbegin + [x']);
    assert PushStudent(s2, d, 0) == Ok(s4);
    var name := EncodedName(prof, y);
    EncodedNameRoundTrip(prof, y, d, y.remTime);
    assert TryPlaceP(s, k, 0) == Ok(Occupy(s4, k, 0, d, 0, name));
    t := Occupy(s4, k, 0, d, 0, name);
    assert t.qbegin[k + 1] == x';
    assert t.pools[d] == [Slot(name, true, y.remTime, y.prior)];
  }

  /** An unlocked entry that takes its turn hands the rest of the pass to the next one. */
  lemma PassPStep(s: Sched, k: nat, f: nat)
    requires Ready(s) && k < |s.qbegin| && s.qbegin[k].name !in s.locked
    requires TryPlaceP(s, k, 0).Ok?
    ensures PassP(s, k, f + 1) == PassP(TryPlaceP(s, k, 0).value, k + 1, f)
  {
  }

  /** Two students of equal priority contending for a one-slot discipline make the
      preemptive pass run forever: however many entries it may visit, it is still not done. */
  lemma {:induction false} ContendedForever(s: Sched, k: nat, d: string, prof: string, x: Student, y: Student, fuel: nat)
    requires Contended(s, k, d, prof, x, y)
    ensures PassP(s, k, fuel) == Err(OutOfFuel)
    decreases fuel
  {
    var t, x' := ContendedStep(s, k, d, prof, x, y);
    if fuel > 0 {
      var f: nat :| f + 1 == fuel;
      ContendedForever(t, k + 1, d, prof, y, x', f);
      PassPStep(s, k, f);
    }
  }
}
