/** `calculate_student_rankings`: every student's overall average, highest first. */
module Ranking {
  import opened Common
  import opened StudentRecord
  import opened Roster
  import opened Sorting
  import opened Store

  // ---- calculate_student_rankings -------------------------------------------

  /** One `{"name": ..., "average": ...}` line of the ranking. */
  datatype Ranked = Ranked(name: string, average: real)

  function RankedAverage(e: Ranked): real
  {
    e.average
  }

  /** The roster rows that have a GRN, in roster order. */
  function StudentRows(roster: seq<Row>): (r: seq<Row>)
    ensures forall x :: x in r <==> x in roster && x.grn != ""
    ensures forall k :: 0 <= k < |r| ==> r[k].grn != ""
  {
    if roster == [] then []
    else
      var init := roster[..|roster| - 1];
      var last := roster[|roster| - 1];
      assert roster == init + [last];
      StudentRows(init) + (if last.grn != "" then [last] else [])
  }

  /** The list `calculate_student_rankings` builds before sorting: one line per
      roster row with a GRN, carrying that row's name and overall average. */
  function RankingEntries(roster: seq<Row>, students: map<string, Student>): (r: seq<Ranked>)
    requires RosterKnown(roster, students)
    ensures |r| <= |roster|
  {
    if roster == [] then []
    else
      var init := roster[..|roster| - 1];
      var last := roster[|roster| - 1];
      RankingEntries(init, students) +
        (if last.grn != "" then [Ranked(last.name, Average(students[last.grn]))] else [])
  }

  /** The ranking holds one line per roster row with a GRN, in roster order, with
      that row's name and its student's overall average. */
  lemma {:induction false} RankingEntriesRows(roster: seq<Row>, students: map<string, Student>)
    requires RosterKnown(roster, students)
    ensures |RankingEntries(roster, students)| == |StudentRows(roster)|
    ensures forall k :: 0 <= k < |StudentRows(roster)| ==>
      StudentRows(roster)[k].grn in students &&
      RankingEntries(roster, students)[k] ==
        Ranked(StudentRows(roster)[k].name, Average(students[StudentRows(roster)[k].grn]))
  {
    if roster != [] {
      var init := roster[..|roster| - 1];
      var last := roster[|roster| - 1];
      assert roster == init + [last];
      assert RosterKnown(init, students) by {
        assert forall i :: 0 <= i < |init| ==> init[i] == roster[i];
      }
      RankingEntriesRows(init, students);
      var rows := StudentRows(init);
      var all := StudentRows(roster);
      var entries := RankingEntries(roster, students);
      assert all == rows + (if last.grn != "" then [last] else []);
      assert entries == RankingEntries(init, students) +
        (if last.grn != "" then [Ranked(last.name, Average(students[last.grn]))] else []);
      forall k | 0 <= k < |all|
        ensures all[k].grn in students && entries[k] == Ranked(all[k].name, Average(students[all[k].grn]))
      {
        if k < |rows| {
          assert all[k] == rows[k];
          assert entries[k] == RankingEntries(init, students)[k];
        }
      }
    }
  }

  /** One more roster row extends the lines by that row's line, if it has a GRN. */
  lemma RankingEntriesStep(roster: seq<Row>, i: nat, students: map<string, Student>)
    requires i < |roster| && RosterKnown(roster[..i], students)
    requires roster[i].grn != "" ==> roster[i].grn in students
    ensures RosterKnown(roster[..i + 1], students)
    ensures RankingEntries(roster[..i + 1], students) == RankingEntries(roster[..i], students) +
      (if roster[i].grn != "" then [Ranked(roster[i].name, Average(students[roster[i].grn]))] else [])
  {
    var prefix := roster[..i + 1];
    assert prefix[..i] == roster[..i] && prefix[i] == roster[i];
    forall j | 0 <= j < |prefix| && prefix[j].grn != "" ensures prefix[j].grn in students {
      if j < i {
        assert prefix[j] == roster[..i][j];
      }
    }
  }

  /** The loop of `calculate_student_rankings` that collects one line per student row. */
  method CollectRankingEntries(roster: seq<Row>, students: map<string, Student>) returns (r: Result<seq<Ranked>>)
    ensures r.Err? <==> !RosterKnown(roster, students)
    ensures r.Err? ==> r.error.UnknownIdentifier? && r.error.grn != "" && r.error.grn !in students
    ensures r.Err? ==> exists i :: (0 <= i < |roster| && roster[i].grn == r.error.grn &&
      RosterKnown(roster[..i], students))
    ensures r.Ok? ==> (RosterKnown(roster, students) && r.value == RankingEntries(roster, students))
  {
    var entries: seq<Ranked> := [];
    for i := 0 to |roster|
      invariant RosterKnown(roster[..i], students)
      invariant entries == RankingEntries(roster[..i], students)
    {
      var user := roster[i];
      if user.grn != "" && user.grn !in students {
        assert roster[i].grn != "" && roster[i].grn !in students;
        return Err(UnknownIdentifier(user.grn));
      }
      RankingEntriesStep(roster, i, students);
      if user.grn != "" {
        entries := entries + [Ranked(user.name, Average(students[user.grn]))];
      }
    }
    assert roster[..|roster|] == roster;
    return Ok(entries);
  }

  /** `calculate_student_rankings`: the lines of every student, highest overall
      average first, students with equal averages in roster order. */
  method StudentRankings(roster: seq<Row>, students: map<string, Student>) returns (r: Result<seq<Ranked>>)
    ensures r.Err? <==> !RosterKnown(roster, students)
    ensures r.Err? ==> r.error.UnknownIdentifier? && r.error.grn != "" && r.error.grn !in students
    ensures r.Err? ==> exists i :: (0 <= i < |roster| && roster[i].grn == r.error.grn &&
      RosterKnown(roster[..i], students))
    ensures r.Ok? ==> (RosterKnown(roster, students) &&
      r.value == SortDesc(RankingEntries(roster, students), RankedAverage))
    ensures r.Ok? ==> multiset(r.value) == multiset(RankingEntries(roster, students))
    ensures r.Ok? ==> NonIncreasing(r.value, RankedAverage)
    ensures r.Ok? ==> forall v :: (WithKey(r.value, RankedAverage, v) ==
      WithKey(RankingEntries(roster, students), RankedAverage, v))
  {
    var entries := CollectRankingEntries(roster, students);
    if entries.Err? {
      return Err(entries.error);
    }
    var ranked := SortDesc(entries.value, RankedAverage);
    forall v ensures WithKey(ranked, RankedAverage, v) == WithKey(entries.value, RankedAverage, v) {
      SortDescStable(entries.value, RankedAverage, v);
    }
    return Ok(ranked);
  }

  /** A student with no counted score anywhere (as a freshly created account,
      whose score rows are empty) has the lowest overall average of all, so the
      ranking puts them last or tied for last. */
  lemma UnscoredStudentLowest(students: map<string, Student>, g: string)
    requires g in students
    requires forall sub: Subject, i :: 0 <= i < |students[g].Scores(sub)| ==> !Counted(students[g].Scores(sub)[i])
    ensures Average(students[g]) == 0.0
    ensures forall h :: h in students ==> Average(students[h]) >= Average(students[g])
  {
    var st := students[g];
    forall sub: Subject ensures SubjectAverage(st, sub) == 0.0 {
      PresentMembers(st.Scores(sub));
    }
    AveragePositiveIff(st);
    AverageNonNegative(st);
    forall h | h in students ensures Average(students[h]) >= 0.0 {
      AverageNonNegative(students[h]);
    }
  }

  /** The roster and students of `test_calculate_student_rankings`. */
  const RankingRoster: seq<Row> := [
    Row("1", "Student A", false, false, false, false, false),
    Row("2", "Student B", false, false, false, false, false)]

  const RankingStudents: map<string, Student> := map[
    "1" := MakeStudent([Some(80.0), Some(90.0)], [Some(70.0), Some(80.0)], [], [], []),
    "2" := MakeStudent([Some(85.0), Some(95.0)], [Some(75.0), Some(85.0)], [], [], [])]

  lemma RankingStudentsAverages()
    ensures Average(RankingStudents["1"]) == 80.0 && Average(RankingStudents["2"]) == 85.0
  {
    var a, b := RankingStudents["1"], RankingStudents["2"];
    assert Present([]) == [];
    PairAverage(a, Math, 80.0, 90.0);
    PairAverage(a, Phy, 70.0, 80.0);
    PairAverage(b, Math, 85.0, 95.0);
    PairAverage(b, Phy, 75.0, 85.0);
    MathPhyAverage(a);
    MathPhyAverage(b);
  }

  /** The lines of a two-row roster of students. */
  lemma EntriesTwo(roster: seq<Row>, students: map<string, Student>)
    requires |roster| == 2 && roster[0].grn != "" && roster[1].grn != ""
    requires roster[0].grn in students && roster[1].grn in students
    ensures RosterKnown(roster, students)
    ensures RankingEntries(roster, students) ==
      [Ranked(roster[0].name, Average(students[roster[0].grn])),
       Ranked(roster[1].name, Average(students[roster[1].grn]))]
  {
    assert roster[..0] == [];
    RankingEntriesStep(roster, 0, students);
    RankingEntriesStep(roster, 1, students);
    assert roster[..2] == roster;
  }

  /** Two lines sort with the strictly higher one first. */
  lemma SortTwo(lo: Ranked, hi: Ranked)
    requires lo.average < hi.average
    ensures SortDesc([lo, hi], RankedAverage) == [hi, lo]
  {
    assert [lo, hi][..1] == [lo] && [lo][..0] == [];
    assert SortDesc([lo], RankedAverage) == [lo];
  }

  /** Student A averages 80 and Student B 85, so the ranking has two lines and
      Student B comes first. */
  lemma StudentRankingsExample()
    ensures RosterKnown(RankingRoster, RankingStudents)
    ensures var ranked := SortDesc(RankingEntries(RankingRoster, RankingStudents), RankedAverage);
      |ranked| == 2 && ranked[0].name == "Student B"
  {
    RankingStudentsAverages();
    EntriesTwo(RankingRoster, RankingStudents);
    SortTwo(Ranked("Student A", 80.0), Ranked("Student B", 85.0));
  }
}
