/** A student's rank in each enrolled subject and overall. */
module SubjectRanks {
  import opened Common
  import opened StudentRecord
  import opened Roster
  import opened Store

  // ---- calculate_student_ranks_in_subjects ----------------------------------

  /** One `{"subject", "rank", "total_students"}` line. */
  datatype SubjectRank = SubjectRank(subject: Subject, rank: nat, total: nat)

  /** How many of the rows have a subject average strictly above `a`. */
  function CountAbove(rows: seq<Row>, students: map<string, Student>, sub: Subject, a: real): (n: nat)
    requires Known(rows, students)
    ensures n <= |rows|
  {
    if rows == [] then 0
    else
      var init := rows[..|rows| - 1];
      var last := rows[|rows| - 1];
      assert Known(init, students) by {
        forall k | 0 <= k < |init| ensures init[k].grn in students {
          assert init[k] == rows[k];
        }
      }
      CountAbove(init, students, sub, a) + (if SubjectAverage(students[last.grn], sub) > a then 1 else 0)
  }

  /** The line for a subject average `a`: 1 + the enrolled peers strictly above
      `a`, out of all enrolled. */
  function RankAt(roster: seq<Row>, students: map<string, Student>, sub: Subject, a: real): (r: SubjectRank)
    requires Known(Enrolled(roster, sub), students)
    ensures r.subject == sub && r.total == |Enrolled(roster, sub)| && 1 <= r.rank <= r.total + 1
  {
    var peers := Enrolled(roster, sub);
    SubjectRank(sub, 1 + CountAbove(peers, students, sub, a), |peers|)
  }

  /** The line for one student in one subject. */
  function RankIn(roster: seq<Row>, students: map<string, Student>, sub: Subject, grn: string): SubjectRank
    requires grn in students && Known(Enrolled(roster, sub), students)
  {
    RankAt(roster, students, sub, SubjectAverage(students[grn], sub))
  }

  /** One more roster row extends the enrolled rows by that row, when it is a
      student flagged for `sub`. */
  lemma EnrolledStep(roster: seq<Row>, i: nat, sub: Subject, students: map<string, Student>)
    requires i < |roster| && Known(Enrolled(roster[..i], sub), students)
    requires roster[i].grn != "" && roster[i].Flag(sub) ==> roster[i].grn in students
    ensures Enrolled(roster[..i + 1], sub) == Enrolled(roster[..i], sub) +
      (if roster[i].grn != "" && roster[i].Flag(sub) then [roster[i]] else [])
    ensures Known(Enrolled(roster[..i + 1], sub), students)
  {
    var prefix := roster[..i + 1];
    assert prefix[..i] == roster[..i] && prefix[i] == roster[i];
    var before := Enrolled(roster[..i], sub);
    var after := Enrolled(prefix, sub);
    forall k | 0 <= k < |after| ensures after[k].grn in students {
      if k < |before| {
        assert after[k] == before[k];
      }
    }
  }

  /** Counting over one more row adds that row when it is strictly above `a`. */
  lemma CountAboveStep(rows: seq<Row>, x: Row, students: map<string, Student>, sub: Subject, a: real)
    requires Known(rows + [x], students)
    ensures Known(rows, students)
    ensures x.grn in students &&
      CountAbove(rows + [x], students, sub, a) ==
        CountAbove(rows, students, sub, a) + (if SubjectAverage(students[x.grn], sub) > a then 1 else 0)
  {
    assert (rows + [x])[..|rows|] == rows && (rows + [x])[|rows|] == x;
    forall k | 0 <= k < |rows| ensures rows[k].grn in students {
      assert rows[k] == (rows + [x])[k];
    }
  }

  /** One more roster row, when it is a student flagged for `sub`, adds one to the
      enrolled count and, when its average is strictly above `a`, one to the count above. */
  lemma RankStep(roster: seq<Row>, i: nat, sub: Subject, a: real, students: map<string, Student>)
    requires i < |roster| && Known(Enrolled(roster[..i], sub), students)
    requires roster[i].grn != "" && roster[i].Flag(sub) ==> roster[i].grn in students
    ensures Known(Enrolled(roster[..i + 1], sub), students)
    ensures var enrolls := roster[i].grn != "" && roster[i].Flag(sub);
      |Enrolled(roster[..i + 1], sub)| == |Enrolled(roster[..i], sub)| + (if enrolls then 1 else 0) &&
      CountAbove(Enrolled(roster[..i + 1], sub), students, sub, a) ==
        CountAbove(Enrolled(roster[..i], sub), students, sub, a) +
        (if enrolls && SubjectAverage(students[roster[i].grn], sub) > a then 1 else 0)
  {
    EnrolledStep(roster, i, sub, students);
    if roster[i].grn != "" && roster[i].Flag(sub) {
      CountAboveStep(Enrolled(roster[..i], sub), roster[i], students, sub, a);
    } else {
      assert Enrolled(roster[..i + 1], sub) == Enrolled(roster[..i], sub);
    }
  }

  /** A student row flagged for `sub` whose GRN has no Student makes the
      enrolled rows unknown. */
  lemma UnknownPeer(roster: seq<Row>, i: nat, sub: Subject, students: map<string, Student>)
    requires i < |roster| && roster[i].grn != "" && roster[i].Flag(sub) && roster[i].grn !in students
    ensures !Known(Enrolled(roster, sub), students)
  {
    EnrolledMembers(roster, sub);
    assert roster[i] in Enrolled(roster, sub);
  }

  /** One pass of the inner loop of `calculate_student_ranks_in_subjects` over
      roster row `i`: raises for an enrolled row without a Student, and
      otherwise counts the row when enrolled and its average when strictly above `a`. */
  method VisitRow(sub: Subject, a: real, roster: seq<Row>, students: map<string, Student>,
                  i: nat, rank: nat, total: nat) returns (r: Result<(nat, nat)>)
    requires i < |roster| && Known(Enrolled(roster[..i], sub), students)
    requires total == |Enrolled(roster[..i], sub)|
    requires rank == 1 + CountAbove(Enrolled(roster[..i], sub), students, sub, a)
    ensures r.Err? <==> roster[i].grn != "" && roster[i].Flag(sub) && roster[i].grn !in students
    ensures r.Err? ==> r.error == UnknownIdentifier(roster[i].grn)
    ensures r.Ok? ==> Known(Enrolled(roster[..i + 1], sub), students)
    ensures r.Ok? ==> r.value.1 == |Enrolled(roster[..i + 1], sub)|
    ensures r.Ok? ==> r.value.0 == 1 + CountAbove(Enrolled(roster[..i + 1], sub), students, sub, a)
  {
    var user := roster[i];
    if user.grn != "" && user.Flag(sub) {
      if user.grn !in students {
        return Err(UnknownIdentifier(user.grn));
      }
      RankStep(roster, i, sub, a, students);
      if SubjectAverage(students[user.grn], sub) > a {
        return Ok((rank + 1, total + 1));
      }
      return Ok((rank, total + 1));
    }
    RankStep(roster, i, sub, a, students);
    return Ok((rank, total));
  }

  /** Row `i` is the first row enrolled in `sub` whose GRN, `grn`, has no
      Student: the row where the inner loop raises `KeyError`. */
  predicate UnknownPeerAt(roster: seq<Row>, sub: Subject, students: map<string, Student>, i: int, grn: string)
  {
    0 <= i < |roster| && roster[i].grn == grn && grn != "" && roster[i].Flag(sub) && grn !in students &&
    Known(Enrolled(roster[..i], sub), students)
  }

  /** The inner loop of `calculate_student_ranks_in_subjects`: walks the roster
      once for `sub`, counting the enrolled rows and those strictly above `a`. */
  method RankInSubject(sub: Subject, a: real, roster: seq<Row>, students: map<string, Student>)
    returns (r: Result<SubjectRank>)
    ensures r.Err? <==> !Known(Enrolled(roster, sub), students)
    ensures r.Err? ==> r.error.UnknownIdentifier? && r.error.grn !in students
    ensures r.Err? ==> exists i :: UnknownPeerAt(roster, sub, students, i, r.error.grn)
    ensures r.Ok? ==> Known(Enrolled(roster, sub), students) && r.value == RankAt(roster, students, sub, a)
  {
    var rank := 1;
    var total := 0;
    for i := 0 to |roster|
      invariant Known(Enrolled(roster[..i], sub), students)
      invariant total == |Enrolled(roster[..i], sub)|
      invariant rank == 1 + CountAbove(Enrolled(roster[..i], sub), students, sub, a)
    {
      var visited := VisitRow(sub, a, roster, students, i, rank, total);
      if visited.Err? {
        UnknownPeer(roster, i, sub, students);
        assert UnknownPeerAt(roster, sub, students, i, visited.error.grn);
        return Err(visited.error);
      }
      rank, total := visited.value.0, visited.value.1;
    }
    assert roster[..|roster|] == roster;
    return Ok(SubjectRank(sub, rank, total));
  }

  /** `calculate_student_ranks_in_subjects`: one line per enrolled subject, in
      order, or the `KeyError` of the first GRN without a Student. */
  method StudentRanksInSubjects(row: Row, enrolled: seq<Subject>, roster: seq<Row>,
                                students: map<string, Student>) returns (r: Result<seq<SubjectRank>>)
    ensures r.Err? <==> (|enrolled| > 0 &&
      (row.grn !in students || exists k :: 0 <= k < |enrolled| && !Known(Enrolled(roster, enrolled[k]), students)))
    ensures r.Err? ==> r.error.UnknownIdentifier? && r.error.grn !in students
    ensures r.Err? ==> (r.error.grn == row.grn ||
      (row.grn in students && exists k, i :: (0 <= k < |enrolled| &&
        (forall m :: 0 <= m < k ==> Known(Enrolled(roster, enrolled[m]), students)) &&
        UnknownPeerAt(roster, enrolled[k], students, i, r.error.grn))))
    ensures r.Ok? ==> (|r.value| == |enrolled| &&
      forall k :: 0 <= k < |enrolled| ==>
        row.grn in students && Known(Enrolled(roster, enrolled[k]), students) &&
        r.value[k] == RankIn(roster, students, enrolled[k], row.grn))
  {
    var ranks: seq<SubjectRank> := [];
    for k := 0 to |enrolled|
      invariant k > 0 ==> row.grn in students
      invariant forall m :: 0 <= m < k ==> Known(Enrolled(roster, enrolled[m]), students)
      invariant |ranks| == k
      invariant forall m :: 0 <= m < k ==> ranks[m] == RankIn(roster, students, enrolled[m], row.grn)
    {
      var sub := enrolled[k];
      if row.grn !in students {
        return Err(UnknownIdentifier(row.grn));
      }
      var studentAverage := SubjectAverage(students[row.grn], sub);
      var line := RankInSubject(sub, studentAverage, roster, students);
      if line.Err? {
        ghost var i :| UnknownPeerAt(roster, sub, students, i, line.error.grn);
        assert UnknownPeerAt(roster, enrolled[k], students, i, line.error.grn);
        return Err(line.error);
      }
      assert line.value == RankIn(roster, students, sub, row.grn);
      ranks := ranks + [line.value];
    }
    return Ok(ranks);
  }

  /** Counting by a lower threshold never counts fewer rows. */
  lemma {:induction false} CountAboveAntitone(rows: seq<Row>, students: map<string, Student>, sub: Subject, a: real, b: real)
    requires Known(rows, students) && a <= b
    ensures CountAbove(rows, students, sub, b) <= CountAbove(rows, students, sub, a)
  {
    if rows != [] {
      var init := rows[..|rows| - 1];
      assert Known(init, students) by {
        forall k | 0 <= k < |init| ensures init[k].grn in students {
          assert init[k] == rows[k];
        }
      }
      CountAboveAntitone(init, students, sub, a, b);
    }
  }

  /** Nothing is counted above `a` exactly when every row is at or below `a`. */
  lemma {:induction false} CountAboveZero(rows: seq<Row>, students: map<string, Student>, sub: Subject, a: real)
    requires Known(rows, students)
    ensures CountAbove(rows, students, sub, a) == 0 <==>
      forall k :: 0 <= k < |rows| ==> SubjectAverage(students[rows[k].grn], sub) <= a
  {
    if rows != [] {
      var init := rows[..|rows| - 1];
      assert forall k :: 0 <= k < |init| ==> init[k] == rows[k];
      CountAboveZero(init, students, sub, a);
    }
  }

  /** A row at or below `a` is one that is not counted, so fewer than all rows are. */
  lemma {:induction false} CountAboveMissesOne(rows: seq<Row>, students: map<string, Student>, sub: Subject, a: real, j: nat)
    requires Known(rows, students) && j < |rows|
    requires SubjectAverage(students[rows[j].grn], sub) <= a
    ensures CountAbove(rows, students, sub, a) < |rows|
  {
    var init := rows[..|rows| - 1];
    assert forall k :: 0 <= k < |init| ==> init[k] == rows[k];
    if j < |rows| - 1 {
      CountAboveMissesOne(init, students, sub, a, j);
    }
  }

  /** A student ranks first in a subject exactly when no enrolled peer has a
      strictly greater average in it. */
  lemma SubjectRankTop(roster: seq<Row>, students: map<string, Student>, sub: Subject, grn: string)
    requires grn in students && Known(Enrolled(roster, sub), students)
    ensures RankIn(roster, students, sub, grn).rank == 1 <==>
      forall x :: x in Enrolled(roster, sub) ==>
        SubjectAverage(students[x.grn], sub) <= SubjectAverage(students[grn], sub)
  {
    var peers := Enrolled(roster, sub);
    CountAboveZero(peers, students, sub, SubjectAverage(students[grn], sub));
  }

  /** A student whose subject average is at least another's never ranks below them. */
  lemma SubjectRankMonotone(roster: seq<Row>, students: map<string, Student>, sub: Subject, g: string, h: string)
    requires g in students && h in students && Known(Enrolled(roster, sub), students)
    requires SubjectAverage(students[h], sub) >= SubjectAverage(students[g], sub)
    ensures RankIn(roster, students, sub, h).rank <= RankIn(roster, students, sub, g).rank
  {
    CountAboveAntitone(Enrolled(roster, sub), students, sub,
                       SubjectAverage(students[g], sub), SubjectAverage(students[h], sub));
  }

  /** A student whose own row is enrolled in the subject ranks within the enrolled total. */
  lemma SubjectRankWithinTotal(roster: seq<Row>, students: map<string, Student>, sub: Subject, i: nat)
    requires i < |roster| && roster[i].grn != "" && roster[i].Flag(sub)
    requires roster[i].grn in students && Known(Enrolled(roster, sub), students)
    ensures RankIn(roster, students, sub, roster[i].grn).rank <= RankIn(roster, students, sub, roster[i].grn).total
  {
    var peers := Enrolled(roster, sub);
    EnrolledMembers(roster, sub);
    assert roster[i] in peers;
    var j :| 0 <= j < |peers| && peers[j] == roster[i];
    CountAboveMissesOne(peers, students, sub, SubjectAverage(students[roster[i].grn], sub), j);
  }

  // ---- calculate_overall_rank ----------------------------------------------

  /** The students whose overall average is strictly above `a`. */
  function Above(students: map<string, Student>, a: real): (s: set<string>)
    ensures s <= students.Keys
  {
    set g | g in students && Average(students[g]) > a
  }

  /** Taking one more element out of `rest` uncovers it in `s - rest` when it is in `s`. */
  lemma Uncover<T>(s: set<T>, rest: set<T>, g: T)
    requires g in rest
    ensures g in s ==> |s - (rest - {g})| == |s - rest| + 1
    ensures g !in s ==> s - (rest - {g}) == s - rest
  {
    if g in s {
      assert s - (rest - {g}) == (s - rest) + {g};
    }
  }

  lemma {:induction false} SubsetSize<T>(a: set<T>, b: set<T>)
    requires a <= b
    ensures |a| <= |b|
    decreases b
  {
    if a != {} {
      var x :| x in a;
      SubsetSize(a - {x}, b - {x});
    }
  }

  /** Visiting one more student uncovers it among those above `a` exactly when its
      overall average is strictly greater. */
  lemma AboveStep(students: map<string, Student>, a: real, rest: set<string>, g: string)
    requires g in rest && g in students
    ensures Average(students[g]) > a ==>
      |Above(students, a) - (rest - {g})| == |Above(students, a) - rest| + 1
    ensures Average(students[g]) <= a ==> Above(students, a) - (rest - {g}) == Above(students, a) - rest
  {
    Uncover(Above(students, a), rest, g);
  }

  /** `calculate_overall_rank`: 1 + the students with a strictly greater overall average. */
  method OverallRank(row: Row, students: map<string, Student>) returns (r: Result<nat>)
    ensures r.Err? <==> row.grn !in students
    ensures r.Err? ==> r.error == UnknownIdentifier(row.grn)
    ensures r.Ok? ==> row.grn in students && r.value == 1 + |Above(students, Average(students[row.grn]))|
  {
    if row.grn !in students {
      return Err(UnknownIdentifier(row.grn));
    }
    var studentAverage := Average(students[row.grn]);
    ghost var above := Above(students, studentAverage);
    var rank := 1;
    var rest := students.Keys;
    while rest != {}
      invariant rest <= students.Keys
      invariant rank == 1 + |above - rest|
      decreases |rest|
    {
      var g :| g in rest;
      var avg := Average(students[g]);
      AboveStep(students, studentAverage, rest, g);
      if avg > studentAverage {
        rank := rank + 1;
      }
      rest := rest - {g};
    }
    assert above - {} == above;
    return Ok(rank);
  }

  /** The overall rank lies between 1 and the number of students, and it is 1
      exactly for a student holding the highest overall average. */
  lemma OverallRankBounds(students: map<string, Student>, grn: string)
    requires grn in students
    ensures 1 <= 1 + |Above(students, Average(students[grn]))| <= |students|
    ensures |Above(students, Average(students[grn]))| == 0 <==>
      forall h :: h in students ==> Average(students[h]) <= Average(students[grn])
  {
    var above := Above(students, Average(students[grn]));
    var others := students.Keys - {grn};
    assert above <= others;
    SubsetSize(above, others);
    if above == {} {
      forall h | h in students ensures Average(students[h]) <= Average(students[grn]) {
        assert h !in above;
      }
    } else {
      var h :| h in above;
    }
  }

  /** The students of `test_calculate_overall_rank`: math only, averages 85, 90 and 75. */
  const OverallRankStudents: map<string, Student> := map[
    "1" := MakeStudent([Some(80.0), Some(90.0)], [], [], [], []),
    "2" := MakeStudent([Some(85.0), Some(95.0)], [], [], [], []),
    "3" := MakeStudent([Some(70.0), Some(80.0)], [], [], [], [])]

  lemma OverallRankStudentsAverages()
    ensures OverallRankStudents.Keys == {"1", "2", "3"}
    ensures Average(OverallRankStudents["1"]) == 85.0
    ensures Average(OverallRankStudents["2"]) == 90.0
    ensures Average(OverallRankStudents["3"]) == 75.0
  {
    var students := OverallRankStudents;
    assert Present([]) == [];
    var s1, s2, s3 := students["1"], students["2"], students["3"];
    PairAverage(s1, Math, 80.0, 90.0);
    PairAverage(s2, Math, 85.0, 95.0);
    PairAverage(s3, Math, 70.0, 80.0);
    MathPhyAverage(s1);
    MathPhyAverage(s2);
    MathPhyAverage(s3);
  }

  /** Student "1" (85) is passed only by student "2" (90), so it ranks 2nd. */
  lemma OverallRankExample()
    ensures "1" in OverallRankStudents
    ensures 1 + |Above(OverallRankStudents, Average(OverallRankStudents["1"]))| == 2
  {
    OverallRankStudentsAverages();
    assert Above(OverallRankStudents, 85.0) == {"2"};
  }
}
