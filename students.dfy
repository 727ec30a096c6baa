/** Students (the consumers), their text form `Student.__str__`, the thread names
    the scheduler builds from it, and the parse `push_student` applies to such a
    name to rebuild an evicted student. */
module Students {
  import opened Outcomes
  import opened Text

  /** A student. Times and priority are integers in the model's time unit. */
  datatype Student = Student(
    name: string,
    group: string,
    discipline: seq<string>,  // disciplines still to be taken, in order
    burst: int,
    prior: int,
    arrTime: int,
    remTime: int)

  /** `Student.__init__`: the remaining time starts equal to the burst. */
  function NewStudent(name: string, group: string, discipline: seq<string>, burst: int, prior: int, arrTime: int): (s: Student)
    ensures s.remTime == s.burst
  {
    Student(name, group, discipline, burst, prior, arrTime, burst)
  }

  /** The discipline line of `__str__`: every discipline followed by one space. */
  function DisciplineLine(ds: seq<string>): string
  {
    if ds == [] then "" else ds[0] + " " + DisciplineLine(ds[1..])
  }

  /** `Student.__str__`: six lines; burst and arrival time are written scaled by 1000. */
  function Encode(s: Student): (r: string)
    ensures |s.name| < |r| && r[..|s.name|] == s.name && r[|s.name|] == '\n'
  {
    assert [s.name, s.group, DisciplineLine(s.discipline),
            IntToString(s.burst * 1000), IntToString(s.prior), IntToString(s.arrTime * 1000)][0] == s.name;
    Join([s.name, s.group, DisciplineLine(s.discipline),
          IntToString(s.burst * 1000), IntToString(s.prior), IntToString(s.arrTime * 1000)], '\n')
  }

  /** The thread name of a non-preemptive occupancy: `prof + '_' + student`. */
  function PlainName(prof: string, s: Student): (r: string)
    ensures |prof| < |r| && r[..|prof|] == prof && r[|prof|] == '_'
  {
    assert (prof + "_" + s.name)[|prof|] == '_';
    prof + "_" + s.name
  }

  /** The thread name of a preemptive occupancy: `prof + '_' + student + '_' + str(student)`. */
  function EncodedName(prof: string, s: Student): (r: string)
    ensures |prof| < |r| && r[..|prof|] == prof && r[|prof|] == '_'
  {
    assert [prof, s.name, Encode(s)][0] == prof;
    assert Join([prof, s.name, Encode(s)], '_')[|prof|] == '_';
    Join([prof, s.name, Encode(s)], '_')
  }

  lemma EncodedNameShape(prof: string, s: Student)
    ensures EncodedName(prof, s) == prof + "_" + (s.name + "_" + Encode(s))
  {
    var ps := [prof, s.name, Encode(s)];
    assert ps[1..] == [s.name, Encode(s)];
    assert ps[1..][1..] == [Encode(s)];
    assert Join(ps[1..], '_') == s.name + "_" + Encode(s);
    assert Join(ps, '_') == prof + "_" + Join(ps[1..], '_');
  }

  /** `name.split('_')[1]`: the student a thread name refers to. */
  function StudentOf(threadName: string): string
    requires '_' in threadName
  {
    Split(threadName, '_')[1]
  }

  /** `name.split('_')[0]`: the professor a thread name refers to. */
  function ProfOf(threadName: string): string
  {
    Split(threadName, '_')[0]
  }

  /** The parse in `push_student`: the third '_'-field of the thread name, split into
      lines, becomes a student of discipline `[d]` whose burst (and remaining time) is
      `rem`. None where Python raises (too few fields or lines, too many lines to
      unpack, a priority or arrival text that is not a number). */
  function Decode(threadName: string, d: string, rem: int): (r: Option<Student>)
    ensures r.Some? ==> |Split(threadName, '_')| >= 3
    ensures r.Some? ==> r.value.discipline == [d] && r.value.burst == rem && r.value.remTime == rem
  {
    var parts := Split(threadName, '_');
    if |parts| < 3 then None
    else
      var args := Split(parts[2], '\n');
      if |args| != 6 then None
      else
        match (ParseInt(args[4]), ParseInt(args[5]))
        case (Some(prior), Some(arr)) => Some(NewStudent(args[0], args[1], [d], rem, prior, arr))
        case _ => None
  }

  /** The condition under which names round-trip: no field holds '_', and the name,
      group and disciplines hold no line break. */
  predicate Clean(prof: string, s: Student)
  {
    && '_' !in prof
    && '_' !in s.name && '\n' !in s.name
    && '_' !in s.group && '\n' !in s.group
    && forall k :: 0 <= k < |s.discipline| ==> '_' !in s.discipline[k] && '\n' !in s.discipline[k]
  }

  lemma {:induction false} DisciplineLineAvoids(ds: seq<string>, x: char)
    requires x != ' '
    requires forall k :: 0 <= k < |ds| ==> x !in ds[k]
    ensures x !in DisciplineLine(ds)
  {
    if ds != [] {
      DisciplineLineAvoids(ds[1..], x);
    }
  }

  lemma EncodeLines(s: Student)
    requires '_' !in s.name && '\n' !in s.name && '_' !in s.group && '\n' !in s.group
    requires forall k :: 0 <= k < |s.discipline| ==> '_' !in s.discipline[k] && '\n' !in s.discipline[k]
    ensures Split(Encode(s), '\n') ==
      [s.name, s.group, DisciplineLine(s.discipline),
       IntToString(s.burst * 1000), IntToString(s.prior), IntToString(s.arrTime * 1000)]
    ensures '_' !in Encode(s)
  {
    var lines := [s.name, s.group, DisciplineLine(s.discipline),
                  IntToString(s.burst * 1000), IntToString(s.prior), IntToString(s.arrTime * 1000)];
    DisciplineLineAvoids(s.discipline, '\n');
    DisciplineLineAvoids(s.discipline, '_');
    IntToStringClean(s.burst * 1000);
    IntToStringClean(s.prior);
    IntToStringClean(s.arrTime * 1000);
    SplitJoin(lines, '\n');
    JoinAvoids(lines, '\n', '_');
  }

  /** The preemptive thread name round-trips: its first two fields are the professor
      and the student, and `push_student` rebuilds the student with the same name,
      group and priority, discipline `[d]`, burst and remaining time `rem`, and the
      arrival time as written by `__str__`, that is multiplied by 1000. */
  lemma EncodedNameRoundTrip(prof: string, s: Student, d: string, rem: int)
    requires Clean(prof, s)
    ensures '_' in EncodedName(prof, s)
    ensures ProfOf(EncodedName(prof, s)) == prof
    ensures StudentOf(EncodedName(prof, s)) == s.name
    ensures Decode(EncodedName(prof, s), d, rem) ==
      Some(NewStudent(s.name, s.group, [d], rem, s.prior, s.arrTime * 1000))
  {
    EncodeLines(s);
    SplitJoin([prof, s.name, Encode(s)], '_');
    IntToStringRoundTrip(s.prior);
    IntToStringRoundTrip(s.arrTime * 1000);
  }

  /** The non-preemptive thread name round-trips on its professor and student fields. */
  lemma PlainNameRoundTrip(prof: string, s: Student)
    requires '_' !in prof && '_' !in s.name
    ensures '_' in PlainName(prof, s)
    ensures ProfOf(PlainName(prof, s)) == prof
    ensures StudentOf(PlainName(prof, s)) == s.name
  {
    SplitJoin([prof, s.name], '_');
    assert Join([prof, s.name], '_') == PlainName(prof, s) by {
      assert [prof, s.name][1..] == [s.name];
    }
  }
}
