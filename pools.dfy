/** The professors' capacity slots. In the source each discipline has two parallel
    lists, `proc[d]` (one thread per slot, identified by its name and liveness) and
    `now[d]` (one `[remaining, priority]` pair per slot); here they are one record per
    slot. */
module Pools {
  import opened Outcomes

  /** One slot: the name of its current thread, whether that thread is alive, and the
      remaining time and priority recorded for it in `now`. */
  datatype Slot = Slot(occupant: string, alive: bool, rem: int, prio: int)

  /** A professor: a name, the discipline offered and how many students at a time. */
  datatype Professor = Professor(name: string, discipline: string, students: int)

  /** The three slot searches: `find_alive` (a slot whose thread is dead), `find_prior`
      (priority at most `p`) and `find_burst` (remaining time at least `b` and priority
      at most `p`). */
  datatype Rule = Dead | PrioAtMost(p: int) | LongerAtMostPrio(p: int, b: int)

  predicate Matches(x: Slot, rule: Rule)
  {
    match rule
    case Dead => !x.alive
    case PrioAtMost(p) => x.prio <= p
    case LongerAtMostPrio(p, b) => x.rem >= b && x.prio <= p
  }

  /** The index of the first slot the rule accepts, if any. */
  function FirstMatch(s: seq<Slot>, rule: Rule): (r: Option<nat>)
    ensures r.Some? ==> r.value < |s| && Matches(s[r.value], rule)
  {
    if s == [] then None
    else if Matches(s[0], rule) then Some(0)
    else
      match FirstMatch(s[1..], rule)
      case Some(i) => Some(i + 1)
      case None => None
  }

  /** FirstMatch finds the least accepted index, and finds nothing only when no slot
      is accepted. */
  lemma {:induction false} FirstMatchLeast(s: seq<Slot>, rule: Rule)
    ensures FirstMatch(s, rule).Some? ==>
      var i := FirstMatch(s, rule).value;
      i < |s| && Matches(s[i], rule) && forall j :: 0 <= j < i ==> !Matches(s[j], rule)
    ensures FirstMatch(s, rule).None? <==> forall j :: 0 <= j < |s| ==> !Matches(s[j], rule)
  {
    if s != [] && !Matches(s[0], rule) {
      FirstMatchLeast(s[1..], rule);
      if FirstMatch(s[1..], rule).None? {
        forall j | 0 <= j < |s| ensures !Matches(s[j], rule) {
          if j > 0 { assert s[j] == s[1..][j - 1]; }
        }
      } else {
        var i := FirstMatch(s[1..], rule).value;
        forall j | 0 <= j < i + 1 ensures !Matches(s[j], rule) {
          if j > 0 { assert s[j] == s[1..][j - 1]; }
        }
      }
    }
  }

  /** Every slot `find_burst` accepts is one `find_prior` accepts too, so `find_prior`
      finds a slot no later than `find_burst`: once `find_prior` has found nothing,
      `find_burst` finds nothing either. */
  lemma {:induction false} BurstRuleAfterPrioRule(s: seq<Slot>, p: int, b: int)
    ensures FirstMatch(s, LongerAtMostPrio(p, b)).Some? ==>
      FirstMatch(s, PrioAtMost(p)).Some? &&
      FirstMatch(s, PrioAtMost(p)).value <= FirstMatch(s, LongerAtMostPrio(p, b)).value
    ensures FirstMatch(s, PrioAtMost(p)).None? ==> FirstMatch(s, LongerAtMostPrio(p, b)).None?
  {
    if s != [] && !Matches(s[0], PrioAtMost(p)) {
      BurstRuleAfterPrioRule(s[1..], p, b);
    }
  }

  /** `range(e.students)`: a negative count gives no slot. */
  function SlotCount(p: Professor): nat
  {
    if p.students < 0 then 0 else p.students
  }

  /** The idle slots of one professor: threads named `name + '_ _ '`, not started, with
      `now` entry `[0, 0]`. */
  function IdleSlots(p: Professor): seq<Slot>
  {
    seq(SlotCount(p), _ => Slot(p.name + "_ _ ", false, 0, 0))
  }

  /** The slots of discipline `d`, one professor after the other, as `proc[d].extend`
      builds them. */
  function PoolOf(profs: seq<Professor>, d: string): seq<Slot>
  {
    if profs == [] then []
    else (if profs[0].discipline == d then IdleSlots(profs[0]) else []) + PoolOf(profs[1..], d)
  }

  /** `proc[d].extend` for one more professor appends that professor's slots. */
  lemma {:induction false} PoolOfSnoc(profs: seq<Professor>, p: Professor, d: string)
    ensures PoolOf(profs + [p], d) == PoolOf(profs, d) + (if p.discipline == d then IdleSlots(p) else [])
  {
    var tail: seq<Slot> := if p.discipline == d then IdleSlots(p) else [];
    if profs == [] {
      assert [p][1..] == [];
      assert PoolOf([p], d) == tail + PoolOf([], d);
    } else {
      var h: seq<Slot> := if profs[0].discipline == d then IdleSlots(profs[0]) else [];
      assert (profs + [p])[1..] == profs[1..] + [p];
      PoolOfSnoc(profs[1..], p, d);
      calc {
        PoolOf(profs + [p], d);
        h + PoolOf(profs[1..] + [p], d);
        h + (PoolOf(profs[1..], d) + tail);
        (h + PoolOf(profs[1..], d)) + tail;
        PoolOf(profs, d) + tail;
      }
    }
  }

  function Offerings(profs: seq<Professor>): set<string>
  {
    set p | p in profs :: p.discipline
  }

  /** The slot table built by `__init__`, with one `now` entry for every thread. */
  function InitialPools(profs: seq<Professor>): map<string, seq<Slot>>
  {
    map d | d in Offerings(profs) :: PoolOf(profs, d)
  }

  /** The total number of slots the professors offer for `d`. */
  function TotalSlots(profs: seq<Professor>, d: string): nat
  {
    if profs == [] then 0
    else (if profs[0].discipline == d then SlotCount(profs[0]) else 0) + TotalSlots(profs[1..], d)
  }

  /** A slot as `__init__` leaves it: its thread not started, `now` entry `[0, 0]`,
      named after a professor `p` of the discipline as `p.name + '_ _ '`. */
  predicate IdleFor(x: Slot, profs: seq<Professor>, d: string)
  {
    !x.alive && x.rem == 0 && x.prio == 0 && '_' in x.occupant &&
    exists p :: p in profs && p.discipline == d && x.occupant == p.name + "_ _ "
  }

  /** Every slot of the initial table is idle, and a discipline has as many slots as
      its professors offer together. */
  lemma {:induction false} PoolOfShape(profs: seq<Professor>, d: string)
    ensures |PoolOf(profs, d)| == TotalSlots(profs, d)
    ensures forall i :: 0 <= i < |PoolOf(profs, d)| ==> IdleFor(PoolOf(profs, d)[i], profs, d)
  {
    if profs != [] {
      PoolOfShape(profs[1..], d);
      var h: seq<Slot> := if profs[0].discipline == d then IdleSlots(profs[0]) else [];
      var t := PoolOf(profs[1..], d);
      assert PoolOf(profs, d) == h + t;
      forall i | 0 <= i < |h + t| ensures IdleFor((h + t)[i], profs, d) {
        var name := profs[0].name + "_ _ ";
        assert name[|profs[0].name|] == '_';
        if i < |h| {
          assert (h + t)[i] == h[i];
          assert profs[0] in profs;
        } else {
          assert (h + t)[i] == t[i - |h|];
          var x := t[i - |h|];
          assert IdleFor(x, profs[1..], d);
          var p :| p in profs[1..] && p.discipline == d && x.occupant == p.name + "_ _ ";
          assert p in profs;
        }
      }
    }
  }

  lemma InitialPoolsShape(profs: seq<Professor>)
    ensures InitialPools(profs).Keys == Offerings(profs)
    ensures forall d :: d in InitialPools(profs) ==>
      |InitialPools(profs)[d]| == TotalSlots(profs, d) &&
      forall i :: 0 <= i < |InitialPools(profs)[d]| ==>
        !InitialPools(profs)[d][i].alive && InitialPools(profs)[d][i].rem == 0 &&
        InitialPools(profs)[d][i].prio == 0 && '_' in InitialPools(profs)[d][i].occupant
  {
    forall d | d in InitialPools(profs)
      ensures |InitialPools(profs)[d]| == TotalSlots(profs, d)
    {
      PoolOfShape(profs, d);
    }
    forall d, i | d in InitialPools(profs) && 0 <= i < |InitialPools(profs)[d]|
      ensures !InitialPools(profs)[d][i].alive && InitialPools(profs)[d][i].rem == 0 &&
        InitialPools(profs)[d][i].prio == 0 && '_' in InitialPools(profs)[d][i].occupant
    {
      PoolOfShape(profs, d);
    }
  }

  /** The `now` table exactly as `__init__` writes it: a dict comprehension over the
      professors, in which a later professor of the same discipline replaces the row
      of an earlier one instead of extending it. */
  function NowAsWritten(profs: seq<Professor>): map<string, seq<(int, int)>>
  {
    if profs == [] then map[]
    else
      var last := profs[|profs| - 1];
      NowAsWritten(profs[..|profs| - 1])[last.discipline := seq(SlotCount(last), _ => (0, 0))]
  }

  /** Two professors of one discipline with one slot each: `proc` has two threads for
      it but `now` has one row, so a free second slot yields an index `now` lacks. */
  lemma NowRowsTooFew()
    ensures var profs := [Professor("P1", "D1", 1), Professor("P2", "D1", 1)];
      |InitialPools(profs)["D1"]| == 2 &&
      |NowAsWritten(profs)["D1"]| == 1
  {
    var profs := [Professor("P1", "D1", 1), Professor("P2", "D1", 1)];
    assert profs[0] in profs;
    assert Offerings(profs) == {"D1"};
    PoolOfShape(profs, "D1");
    assert profs[1..] == [Professor("P2", "D1", 1)];
    assert profs[1..][1..] == [];
    assert profs[..1] == [Professor("P1", "D1", 1)];
    assert profs[..1][..0] == [];
  }
}
