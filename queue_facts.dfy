/** What construction, `prepare` and the arrival step promise about the queues. */
module QueueFacts {
  import opened Outcomes
  import opened Students
  import opened Queue
  import opened Pools
  import opened Scheduling

  lemma SomeMissingPermutation(q1: seq<Student>, q2: seq<Student>, pools: map<string, seq<Slot>>)
    requires multiset(q1) == multiset(q2)
    ensures SomeMissing(q1, pools) ==> SomeMissing(q2, pools)
  {
    if SomeMissing(q1, pools) {
      var k, j :| 0 <= k < |q1| && 0 <= j < |q1[k].discipline| && q1[k].discipline[j] !in pools;
      assert q1[k] in multiset(q2);
      var k' :| 0 <= k' < |q2| && q2[k'] == q1[k];
      assert q2[k'].discipline[j] !in pools;
    }
  }

  /** `prepare` raises exactly when some student of the waiting queue (the arrivals
      list is not looked at) needs a discipline that is not a key of the slot table. */
  lemma PrepareFailsIff(s: Sched)
    ensures Prepare(s).Err? <==> SomeMissing(s.qbegin, s.pools)
    ensures Prepare(s).Err? ==> Prepare(s).error == MissingDiscipline
  {
    var sorted := SortByBurst(s.qbegin);
    SomeMissingPermutation(sorted, s.qbegin, s.pools);
    SomeMissingPermutation(s.qbegin, sorted, s.pools);
  }

  /** After `prepare` the queue is ordered by burst, equal bursts keep their former
      order, it holds exactly the former students that still need a discipline, and
      the arrivals list holds no `None` and the same students as before. */
  lemma PrepareOrders(s: Sched)
    requires Prepare(s).Ok?
    ensures var t := Prepare(s).value;
      && SortedByBurst(t.qbegin)
      && (forall b :: WithBurst(t.qbegin, b) == NonEmpty(WithBurst(s.qbegin, b)))
      && multiset(t.qbegin) == multiset(NonEmpty(s.qbegin))
      && (forall i :: 0 <= i < |t.qbegin| ==> |t.qbegin[i].discipline| > 0)
      && (forall i :: 0 <= i < |t.allstud| ==> t.allstud[i].Some?)
      && (forall x :: Some(x) in t.allstud <==> Some(x) in s.allstud)
      && multiset(t.allstud) == multiset(s.allstud)[None := 0]
      && t.pools == s.pools && t.state == s.state
  {
    PresentCount(s.allstud);
    var sorted := SortByBurst(s.qbegin);
    NonEmptySorted(sorted);
    NonEmptyPermutation(sorted, s.qbegin);
    forall b ensures WithBurst(NonEmpty(sorted), b) == NonEmpty(WithBurst(s.qbegin, b)) {
      NonEmptyWithBurst(sorted, b);
      SortStable(s.qbegin, b);
    }
  }

  /** The arrivals are the entries whose arrival time the elapsed time strictly exceeds. */
  lemma {:induction false} ArrivalsMembers(a: seq<Option<Student>>, e: int)
    ensures forall x :: x in Arrivals(a, e) <==> Some(x) in a && e > x.arrTime
  {
    if a != [] {
      var init := a[..|a| - 1];
      ArrivalsMembers(init, e);
      assert a == init + [a[|a| - 1]];
    }
  }

  lemma {:induction false} MarkWaitingSpec(state: map<string, Status>, xs: seq<Student>)
    ensures MarkWaiting(state, xs).Keys == state.Keys + QueueNames(xs)
    ensures forall n :: n in QueueNames(xs) ==> MarkWaiting(state, xs)[n] == Waiting
    ensures forall n :: n in state && n !in QueueNames(xs) ==> MarkWaiting(state, xs)[n] == state[n]
  {
    if xs != [] {
      var init := xs[..|xs| - 1];
      MarkWaitingSpec(state, init);
      assert xs == init + [xs[|xs| - 1]];
      assert QueueNames(xs) == QueueNames(init) + {xs[|xs| - 1].name};
    }
  }

  /** The arrival step: arrived students are appended to the queue in arrivals-list
      order and become waiting, their entries become `None`, and nothing else changes;
      in particular a student who is only in the waiting queue keeps its state. */
  lemma ArriveSpec(s: Sched, e: int)
    ensures var t := Arrive(s, e);
      && t.qbegin == s.qbegin + Arrivals(s.allstud, e)
      && |t.allstud| == |s.allstud|
      && (forall i :: 0 <= i < |s.allstud| ==>
            (t.allstud[i].None? <==> s.allstud[i].None? || e > s.allstud[i].value.arrTime))
      && (forall i :: 0 <= i < |s.allstud| && t.allstud[i].Some? ==> t.allstud[i] == s.allstud[i])
      && (forall x :: x in Arrivals(s.allstud, e) <==> Some(x) in s.allstud && e > x.arrTime)
      && (forall x :: x in Arrivals(s.allstud, e) ==> x.name in t.state && t.state[x.name] == Waiting)
      && (forall n :: n in s.state && n !in QueueNames(Arrivals(s.allstud, e)) ==> n in t.state && t.state[n] == s.state[n])
      && t.pools == s.pools && t.locked == s.locked && t.delta == s.delta
  {
    ArrivalsMembers(s.allstud, e);
    MarkWaitingSpec(s.state, Arrivals(s.allstud, e));
  }

  /** Arrival followed by `prepare`: a student stays in the arrivals list exactly when
      the elapsed time has not strictly passed its arrival time. */
  lemma ArrivalLeavesIff(s: Sched, e: int, x: Student)
    requires Prepare(Arrive(s, e)).Ok?
    ensures Some(x) in Prepare(Arrive(s, e)).value.allstud <==> Some(x) in s.allstud && !(e > x.arrTime)
  {
    var a := s.allstud;
    var t := Arrive(s, e);
    if Some(x) in t.allstud {
      var i :| 0 <= i < |t.allstud| && t.allstud[i] == Some(x);
      assert a[i] == Some(x);
    }
    if Some(x) in a && !(e > x.arrTime) {
      var i :| 0 <= i < |a| && a[i] == Some(x);
      assert t.allstud[i] == Some(x);
    }
  }

  lemma {:induction false} StartingNowMembers(studs: seq<Student>)
    ensures forall x :: x in StartingNow(studs) <==> x in studs && x.arrTime == 0
    ensures forall x :: Some(x) in ArrivingLater(studs) <==> x in studs && x.arrTime != 0
    ensures forall i :: 0 <= i < |ArrivingLater(studs)| ==> ArrivingLater(studs)[i].Some?
  {
    if studs != [] {
      StartingNowMembers(studs[1..]);
      assert studs == [studs[0]] + studs[1..];
    }
  }

  /** Splitting the students by arrival time distributes over concatenation, so both
      parts keep the students' order. */
  lemma {:induction false} SplitConcat(a: seq<Student>, b: seq<Student>)
    ensures StartingNow(a + b) == StartingNow(a) + StartingNow(b)
    ensures ArrivingLater(a + b) == ArrivingLater(a) + ArrivingLater(b)
  {
    if a != [] {
      assert (a + b)[0] == a[0] && (a + b)[1..] == a[1..] + b;
      SplitConcat(a[1..], b);
      var h := if a[0].arrTime == 0 then [a[0]] else [];
      assert StartingNow(a + b) == h + (StartingNow(a[1..]) + StartingNow(b));
      assert h + (StartingNow(a[1..]) + StartingNow(b)) == (h + StartingNow(a[1..])) + StartingNow(b);
      var g := if a[0].arrTime != 0 then [Some(a[0])] else [];
      assert ArrivingLater(a + b) == g + (ArrivingLater(a[1..]) + ArrivingLater(b));
      assert g + (ArrivingLater(a[1..]) + ArrivingLater(b)) == (g + ArrivingLater(a[1..])) + ArrivingLater(b);
    } else {
      assert a + b == b;
    }
  }

  /** Every student lands in exactly one of the two parts, as often as it is listed. */
  lemma {:induction false} SplitCount(studs: seq<Student>, x: Student)
    ensures multiset(StartingNow(studs))[x] == if x.arrTime == 0 then multiset(studs)[x] else 0
    ensures multiset(ArrivingLater(studs))[Some(x)] == if x.arrTime != 0 then multiset(studs)[x] else 0
    ensures multiset(ArrivingLater(studs))[None] == 0
    ensures |StartingNow(studs)| + |ArrivingLater(studs)| == |studs|
  {
    if studs != [] {
      var h, t := studs[0], studs[1..];
      assert studs == [h] + t;
      SplitCount(t, x);
      assert multiset(studs) == multiset{h} + multiset(t);
    }
  }

  /** Construction: students with arrival time 0 start in the waiting queue, all others
      in the arrivals list, every student in state -1, and no lock is held. */
  lemma InitialSpec(profs: seq<Professor>, studs: seq<Student>, q: int)
    ensures var s := Initial(profs, studs, q);
      && (forall x :: x in s.qbegin <==> x in studs && x.arrTime == 0)
      && (forall x :: Some(x) in s.allstud <==> x in studs && x.arrTime != 0)
      && (forall i :: 0 <= i < |s.allstud| ==> s.allstud[i].Some?)
      && s.qbegin == StartingNow(studs) && s.allstud == ArrivingLater(studs)
      && |s.qbegin| + |s.allstud| == |studs|
      && (forall x :: multiset(s.qbegin)[x] == if x.arrTime == 0 then multiset(studs)[x] else 0)
      && (forall x :: multiset(s.allstud)[Some(x)] == if x.arrTime != 0 then multiset(studs)[x] else 0)
      && (forall x :: x in studs ==> x.name in s.state && s.state[x.name] == NotArrived)
      && s.state.Keys == QueueNames(studs)
      && s.locked == {} && s.delta == 0
      && WellNamed(s.pools)
  {
    StartingNowMembers(studs);
    forall x {
      SplitCount(studs, x);
    }
    InitialPoolsShape(profs);
  }
}
