/** The list operations `prepare` applies to the waiting queue and the arrivals:
    Python's stable `sorted(key=burst)` and the two list comprehensions that filter. */
module Queue {
  import opened Outcomes
  import opened Students

  predicate SortedByBurst(q: seq<Student>)
  {
    forall i, j :: 0 <= i < j < |q| ==> q[i].burst <= q[j].burst
  }

  /** The students of `q` whose burst is `b`, in their order in `q`. */
  function WithBurst(q: seq<Student>, b: int): seq<Student>
  {
    if q == [] then [] else (if q[0].burst == b then [q[0]] else []) + WithBurst(q[1..], b)
  }

  /** Puts `x` in front of the first student whose burst is not smaller. */
  function Insert(x: Student, q: seq<Student>): (r: seq<Student>)
    ensures multiset(r) == multiset(q) + multiset{x}
  {
    if q == [] || x.burst <= q[0].burst then [x] + q
    else
      assert q == [q[0]] + q[1..];
      [q[0]] + Insert(x, q[1..])
  }

  lemma {:induction false} InsertAtLeast(x: Student, q: seq<Student>, m: int)
    requires x.burst >= m
    requires forall i :: 0 <= i < |q| ==> q[i].burst >= m
    ensures forall i :: 0 <= i < |Insert(x, q)| ==> Insert(x, q)[i].burst >= m
  {
    if q != [] && x.burst > q[0].burst {
      InsertAtLeast(x, q[1..], m);
    }
  }

  lemma ConsSorted(h: Student, t: seq<Student>)
    requires SortedByBurst(t)
    requires forall i :: 0 <= i < |t| ==> h.burst <= t[i].burst
    ensures SortedByBurst([h] + t)
  {
    var r := [h] + t;
    forall i, j | 0 <= i < j < |r| ensures r[i].burst <= r[j].burst {
      assert r[j] == t[j - 1];
      if i > 0 {
        assert r[i] == t[i - 1];
      }
    }
  }

  lemma {:induction false} InsertSorted(x: Student, q: seq<Student>)
    requires SortedByBurst(q)
    ensures SortedByBurst(Insert(x, q))
  {
    if q == [] || x.burst <= q[0].burst {
      ConsSorted(x, q);
    } else {
      assert SortedByBurst(q[1..]);
      InsertSorted(x, q[1..]);
      InsertAtLeast(x, q[1..], q[0].burst);
      ConsSorted(q[0], Insert(x, q[1..]));
    }
  }

  /** `sorted(q, key=lambda s: s.burst)`: ordered by burst and a permutation of `q`. */
  function SortByBurst(q: seq<Student>): (r: seq<Student>)
    ensures SortedByBurst(r)
    ensures multiset(r) == multiset(q)
  {
    if q == [] then []
    else
      assert q == [q[0]] + q[1..];
      InsertSorted(q[0], SortByBurst(q[1..]));
      Insert(q[0], SortByBurst(q[1..]))
  }

  lemma {:induction false} InsertWithBurst(x: Student, q: seq<Student>, b: int)
    ensures WithBurst(Insert(x, q), b) == (if x.burst == b then [x] else []) + WithBurst(q, b)
  {
    if q == [] || x.burst <= q[0].burst {
      WithBurstCons(x, q, b);
    } else {
      var t := q[1..];
      assert q == [q[0]] + t;
      InsertWithBurst(x, t, b);
      WithBurstCons(q[0], Insert(x, t), b);
      WithBurstCons(q[0], t, b);
    }
  }

  /** The sort is stable: students of equal burst keep their relative order. */
  lemma {:induction false} SortStable(q: seq<Student>, b: int)
    ensures WithBurst(SortByBurst(q), b) == WithBurst(q, b)
  {
    if q != [] {
      SortStable(q[1..], b);
      InsertWithBurst(q[0], SortByBurst(q[1..]), b);
    }
  }

  /** `[e for e in q if len(e.discipline) > 0]`. */
  function NonEmpty(q: seq<Student>): (r: seq<Student>)
    ensures forall i :: 0 <= i < |r| ==> |r[i].discipline| > 0
  {
    if q == [] then []
    else (if |q[0].discipline| > 0 then [q[0]] else []) + NonEmpty(q[1..])
  }

  /** `[e for e in a if e is not None]`. */
  function Present(a: seq<Option<Student>>): (r: seq<Option<Student>>)
    ensures forall i :: 0 <= i < |r| ==> r[i].Some?
    ensures forall x :: Some(x) in r <==> Some(x) in a
  {
    if a == [] then []
    else
      assert a == [a[0]] + a[1..];
      (if a[0].Some? then [a[0]] else []) + Present(a[1..])
  }

  /** Dropping the `None` entries distributes over concatenation, so it keeps the
      order of the entries it keeps. */
  lemma {:induction false} PresentConcat(a: seq<Option<Student>>, b: seq<Option<Student>>)
    ensures Present(a + b) == Present(a) + Present(b)
  {
    if a != [] {
      var ab := a + b;
      assert ab[0] == a[0] && ab[1..] == a[1..] + b;
      PresentConcat(a[1..], b);
      var h := if a[0].Some? then [a[0]] else [];
      assert Present(ab) == h + Present(ab[1..]);
      assert h + (Present(a[1..]) + Present(b)) == (h + Present(a[1..])) + Present(b);
    } else {
      assert a + b == b;
    }
  }

  /** Every student entry stays as often as it occurs; no `None` is left. */
  lemma {:induction false} PresentCount(a: seq<Option<Student>>)
    ensures multiset(Present(a)) == multiset(a)[None := 0]
  {
    if a != [] {
      assert a == [a[0]] + a[1..];
      PresentCount(a[1..]);
      assert multiset(a) == multiset{a[0]} + multiset(a[1..]);
    }
  }

  lemma {:induction false} NonEmptyCount(q: seq<Student>, x: Student)
    ensures multiset(NonEmpty(q))[x] == if |x.discipline| > 0 then multiset(q)[x] else 0
  {
    if q != [] {
      var h, t := q[0], q[1..];
      assert q == [h] + t;
      NonEmptyCount(t, x);
      NonEmptyCons(h, t);
      var hs: seq<Student> := if |h.discipline| > 0 then [h] else [];
      assert multiset(NonEmpty(q)) == multiset(hs) + multiset(NonEmpty(t));
      assert multiset(q) == multiset{h} + multiset(t);
    }
  }

  /** Filtering respects permutation: same students in, same students out. */
  lemma NonEmptyPermutation(q1: seq<Student>, q2: seq<Student>)
    requires multiset(q1) == multiset(q2)
    ensures multiset(NonEmpty(q1)) == multiset(NonEmpty(q2))
  {
    forall x ensures multiset(NonEmpty(q1))[x] == multiset(NonEmpty(q2))[x] {
      NonEmptyCount(q1, x);
      NonEmptyCount(q2, x);
    }
  }

  lemma WithBurstCons(h: Student, t: seq<Student>, b: int)
    ensures WithBurst([h] + t, b) == (if h.burst == b then [h] else []) + WithBurst(t, b)
  {
    assert ([h] + t)[1..] == t;
  }

  lemma NonEmptyCons(h: Student, t: seq<Student>)
    ensures NonEmpty([h] + t) == (if |h.discipline| > 0 then [h] else []) + NonEmpty(t)
  {
    assert ([h] + t)[1..] == t;
  }

  /** Filtering by discipline and by burst commute. */
  lemma {:induction false} NonEmptyWithBurst(q: seq<Student>, b: int)
    ensures WithBurst(NonEmpty(q), b) == NonEmpty(WithBurst(q, b))
  {
    if q != [] {
      NonEmptyWithBurst(q[1..], b);
      var h := q[0];
      var t := q[1..];
      assert q == [h] + t;
      NonEmptyCons(h, t);
      WithBurstCons(h, t, b);
      if |h.discipline| > 0 {
        assert NonEmpty(q) == [h] + NonEmpty(t);
        WithBurstCons(h, NonEmpty(t), b);
        if h.burst == b {
          assert WithBurst(q, b) == [h] + WithBurst(t, b);
          NonEmptyCons(h, WithBurst(t, b));
        } else {
          assert WithBurst(q, b) == [] + WithBurst(t, b) == WithBurst(t, b);
          assert WithBurst(NonEmpty(q), b) == [] + WithBurst(NonEmpty(t), b) == WithBurst(NonEmpty(t), b);
        }
      } else {
        assert NonEmpty(q) == [] + NonEmpty(t) == NonEmpty(t);
        if h.burst == b {
          NonEmptyCons(h, WithBurst(t, b));
          assert NonEmpty(WithBurst(q, b)) == [] + NonEmpty(WithBurst(t, b));
        } else {
          assert WithBurst(q, b) == [] + WithBurst(t, b) == WithBurst(t, b);
        }
      }
    }
  }

  lemma {:induction false} NonEmptySorted(q: seq<Student>)
    requires SortedByBurst(q)
    ensures SortedByBurst(NonEmpty(q))
    ensures forall y :: y in NonEmpty(q) ==> y in q
  {
    if q != [] {
      var t := q[1..];
      assert q == [q[0]] + t;
      assert SortedByBurst(t);
      NonEmptySorted(t);
      var nt := NonEmpty(t);
      if |q[0].discipline| > 0 {
        var r := [q[0]] + nt;
        forall i, j | 0 <= i < j < |r| ensures r[i].burst <= r[j].burst {
          assert r[j] == nt[j - 1];
          assert r[j] in t;
          if i > 0 {
            assert r[i] == nt[i - 1];
          }
        }
      } else {
        assert NonEmpty(q) == nt;
      }
    }
  }
}
