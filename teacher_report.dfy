/** `calculate_teacher_averages` and `calculate_class_average`: the mean subject
    average of each teacher's subject, and the mean of a list of averages. */
module TeacherReport {
  import opened Common
  import opened StudentRecord
  import opened Roster
  import opened Store

  /** One `{"name": ..., "average": ...}` line of the teacher report. */
  datatype TeacherAverage = TeacherAverage(name: string, average: real)

  /** The subject and name a teacher row left in `teacher_subject` and `teacher_name`. */
  datatype Teaching = Teaching(subject: Subject, name: string)

  /** What the teacher loop holds after reading `row`: the row's last flagged
      subject with its name, or, for a row without flags, whatever the previous
      teacher row left behind. */
  function NextTeaching(row: Row, held: Option<Teaching>): Option<Teaching>
  {
    match LastFlag(row)
    case Some(sub) => Some(Teaching(sub, row.name))
    case None => held
  }

  /** The teacher lines for `rows`, given what earlier rows left in the loop's variables. */
  function TeacherWalk(rows: seq<Row>, held: Option<Teaching>, stores: Stores,
                       students: map<string, Student>): Result<seq<TeacherAverage>>
    decreases |rows|
  {
    if rows == [] then Ok([])
    else if rows[0].grn != "" then TeacherWalk(rows[1..], held, stores, students)
    else
      var now := NextTeaching(rows[0], held);
      if now.None? then Err(UnboundTeacherSubject)
      else
        match SubjectAveragesOver(stores.Of(now.value.subject), students, now.value.subject)
        case Err(e) => Err(e)
        case Ok(averages) =>
          if averages == [] then Err(NoStudentsInSubject)
          else
            CountIsLength(averages);
            Prepend([TeacherAverage(now.value.name, Mean(averages))],
                    TeacherWalk(rows[1..], now, stores, students))
  }

  /** What `calculate_teacher_averages` returns or raises. */
  function TeacherResults(roster: seq<Row>, stores: Stores, students: map<string, Student>): Result<seq<TeacherAverage>>
  {
    TeacherWalk(roster, None, stores, students)
  }

  /** `acc` followed by the lines of `r`, or the error of `r`. */
  function Prepend(acc: seq<TeacherAverage>, r: Result<seq<TeacherAverage>>): Result<seq<TeacherAverage>>
  {
    match r
    case Ok(rest) => Ok(acc + rest)
    case Err(e) => Err(e)
  }

  lemma PrependNothing(r: Result<seq<TeacherAverage>>)
    ensures Prepend([], r) == r
  {
    if r.Ok? {
      assert [] + r.value == r.value;
    }
  }

  lemma PrependTwice(acc: seq<TeacherAverage>, more: seq<TeacherAverage>, r: Result<seq<TeacherAverage>>)
    ensures Prepend(acc, Prepend(more, r)) == Prepend(acc + more, r)
  {
    if r.Ok? {
      assert acc + (more + r.value) == acc + more + r.value;
    }
  }

  /** The last flagged subject among the first `j` of the fixed five. */
  function LastFlagBefore(row: Row, j: nat): Option<Subject>
    requires j <= |Subjects|
  {
    if j == 0 then None
    else if row.Flag(Subjects[j - 1]) then Some(Subjects[j - 1])
    else LastFlagBefore(row, j - 1)
  }

  lemma LastFlagBeforeAll(row: Row)
    ensures LastFlagBefore(row, |Subjects|) == LastFlag(row)
  {
    assert LastFlagBefore(row, 1) == (if row.math then Some(Math) else None);
    assert LastFlagBefore(row, 2) == (if row.phy then Some(Phy) else LastFlagBefore(row, 1));
    assert LastFlagBefore(row, 3) == (if row.chem then Some(Chem) else LastFlagBefore(row, 2));
    assert LastFlagBefore(row, 4) == (if row.bio then Some(Bio) else LastFlagBefore(row, 3));
    assert LastFlagBefore(row, 5) == (if row.cs then Some(Cs) else LastFlagBefore(row, 4));
  }

  /** `calculate_teacher_averages`. */
  method TeacherAverages(roster: seq<Row>, stores: Stores, students: map<string, Student>)
    returns (r: Result<seq<TeacherAverage>>)
    ensures r == TeacherResults(roster, stores, students)
  {
    var results: seq<TeacherAverage> := [];
    var held: Option<Teaching> := None;
    assert roster[0..] == roster;
    PrependNothing(TeacherResults(roster, stores, students));
    for i := 0 to |roster|
      invariant TeacherResults(roster, stores, students) ==
        Prepend(results, TeacherWalk(roster[i..], held, stores, students))
    {
      var user := roster[i];
      assert roster[i..][0] == user && roster[i..][1..] == roster[i + 1..];
      if user.grn == "" {
        ghost var before := held;
        for j := 0 to |Subjects|
          invariant held == match LastFlagBefore(user, j)
                            case Some(sub) => Some(Teaching(sub, user.name))
                            case None => before
        {
          if user.Flag(Subjects[j]) {
            held := Some(Teaching(Subjects[j], user.name));
          }
        }
        LastFlagBeforeAll(user);
        assert held == NextTeaching(user, before);
        if held.None? {
          assert TeacherWalk(roster[i..], before, stores, students) == Err(UnboundTeacherSubject);
          return Err(UnboundTeacherSubject);
        }
        var sub := held.value.subject;
        var averages := CollectSubjectAverages(stores.Of(sub), students, sub);
        if averages.Err? {
          return Err(averages.error);
        }
        if |averages.value| == 0 {
          return Err(NoStudentsInSubject);
        }
        CountIsLength(averages.value);
        var teacherAverage := Sum(averages.value) / |averages.value| as real;
        PrependTwice(results, [TeacherAverage(held.value.name, teacherAverage)],
                     TeacherWalk(roster[i + 1..], held, stores, students));
        results := results + [TeacherAverage(held.value.name, teacherAverage)];
      }
    }
    assert roster[|roster|..] == [] && results + [] == results;
    r := Ok(results);
  }

  /** Every teacher row flags exactly one subject. */
  ghost predicate OneSubjectPerTeacher(roster: seq<Row>)
  {
    forall x :: x in roster && x.grn == "" ==> HasOneFlag(x)
  }

  /** The row flags exactly one subject. */
  predicate HasOneFlag(row: Row)
  {
    exists sub: Subject :: SingleFlag(row, sub)
  }

  /** The subject a teacher row flags. */
  function Taught(row: Row): Subject
    requires HasOneFlag(row)
  {
    var sub: Subject :| SingleFlag(row, sub);
    SingleFlagFirstIsLast(row, sub);
    LastFlag(row).value
  }

  /** The roster rows without a GRN, in roster order. */
  function TeacherRows(roster: seq<Row>): (r: seq<Row>)
    ensures forall x :: x in r <==> x in roster && x.grn == ""
  {
    if roster == [] then []
    else if roster[0].grn == "" then [roster[0]] + TeacherRows(roster[1..])
    else TeacherRows(roster[1..])
  }

  /** The subject's dict of a teacher row is non-empty and all its keys have a Student. */
  predicate Serves(t: Row, stores: Stores, students: map<string, Student>)
    requires HasOneFlag(t)
  {
    TableKnown(stores.Of(Taught(t)), students) && |stores.Of(Taught(t))| > 0
  }

  /** The report line of a teacher row: its name and the mean subject average over
      every key of the taught subject's dict, whatever the roster flags say. */
  function TeacherLine(t: Row, stores: Stores, students: map<string, Student>): TeacherAverage
    requires HasOneFlag(t)
    requires Serves(t, stores, students)
  {
    var sub := Taught(t);
    CountIsLength(TableAverages(stores.Of(sub), students, sub));
    TeacherAverage(t.name, Mean(TableAverages(stores.Of(sub), students, sub)))
  }

  /** With one subject flag per teacher row, the walk fails exactly when some
      teacher row's dict is empty or has a key without a Student. */
  lemma {:induction false} TeacherWalkOk(rows: seq<Row>, held: Option<Teaching>, stores: Stores,
                                         students: map<string, Student>)
    requires OneSubjectPerTeacher(rows)
    ensures TeacherWalk(rows, held, stores, students).Ok? <==>
      forall x :: x in rows && x.grn == "" ==> Serves(x, stores, students)
    decreases |rows|
  {
    if rows != [] {
      var tail := rows[1..];
      assert rows == [rows[0]] + tail;
      if rows[0].grn != "" {
        TeacherWalkOk(tail, held, stores, students);
      } else {
        var sub := Taught(rows[0]);
        assert NextTeaching(rows[0], held) == Some(Teaching(sub, rows[0].name));
        TeacherWalkOk(tail, Some(Teaching(sub, rows[0].name)), stores, students);
      }
    }
  }

  /** The lines of teacher rows `ts`, in order. */
  function TeacherLines(ts: seq<Row>, stores: Stores, students: map<string, Student>): seq<TeacherAverage>
    requires forall x :: x in ts ==> HasOneFlag(x) && Serves(x, stores, students)
  {
    if ts == [] then []
    else
      assert ts[0] in ts && forall x :: x in ts[1..] ==> x in ts;
      [TeacherLine(ts[0], stores, students)] + TeacherLines(ts[1..], stores, students)
  }

  /** A walk that succeeds holds one line per teacher row, in roster order. */
  lemma {:induction false} TeacherWalkLines(rows: seq<Row>, held: Option<Teaching>, stores: Stores,
                                            students: map<string, Student>)
    requires OneSubjectPerTeacher(rows)
    requires forall x :: x in rows && x.grn == "" ==> Serves(x, stores, students)
    ensures TeacherWalk(rows, held, stores, students) ==
      Ok(TeacherLines(TeacherRows(rows), stores, students))
    decreases |rows|
  {
    if rows != [] {
      var tail := rows[1..];
      assert rows == [rows[0]] + tail;
      if rows[0].grn != "" {
        TeacherWalkLines(tail, held, stores, students);
      } else {
        var sub := Taught(rows[0]);
        var now := Some(Teaching(sub, rows[0].name));
        assert NextTeaching(rows[0], held) == now;
        TeacherWalkLines(tail, now, stores, students);
        var ts := TeacherRows(rows);
        assert ts[1..] == TeacherRows(tail);
      }
    }
  }

  /** `calculate_teacher_averages` under the roster's one-subject-per-teacher rule:
      it fails exactly when a teacher's dict is empty or names an unknown GRN, and
      otherwise gives one line per teacher row, in roster order. */
  lemma TeacherResultsMeaning(roster: seq<Row>, stores: Stores, students: map<string, Student>)
    requires OneSubjectPerTeacher(roster)
    ensures TeacherResults(roster, stores, students).Ok? <==>
      forall x :: x in roster && x.grn == "" ==> Serves(x, stores, students)
    ensures TeacherResults(roster, stores, students).Ok? ==>
      TeacherResults(roster, stores, students).value == TeacherLines(TeacherRows(roster), stores, students)
  {
    TeacherWalkOk(roster, None, stores, students);
    if TeacherResults(roster, stores, students).Ok? {
      TeacherWalkLines(roster, None, stores, students);
    }
  }

  /** `calculate_class_average`, given the `"average"` of each line. */
  method ClassAverage(averages: seq<real>) returns (r: Result<real>)
    ensures r.Err? <==> averages == []
    ensures r.Err? ==> r.error == NoStudentsInSubject
    ensures r.Ok? ==> Count(averages) == |averages| as real && r.value == Mean(averages)
  {
    var total := 0.0;
    for i := 0 to |averages|
      invariant total == Sum(averages[..i])
    {
      assert averages[..i + 1][..i] == averages[..i];
      total := total + averages[i];
    }
    assert averages[..|averages|] == averages;
    if |averages| == 0 {
      return Err(NoStudentsInSubject);
    }
    CountIsLength(averages);
    return Ok(total / |averages| as real);
  }

  /** `calculate_class_average([{"average": 80.0}, {"average": 90.0}, {"average": 85.0}])` is 85. */
  lemma ClassAverageExample()
    ensures Count([80.0, 90.0, 85.0]) == 3.0 && Mean([80.0, 90.0, 85.0]) == 85.0
  {
    CountIsLength([80.0, 90.0, 85.0]);
    assert [80.0, 90.0, 85.0][..2] == [80.0, 90.0];
    assert [80.0, 90.0][..1] == [80.0];
    assert [80.0][..0] == [];
  }
}
