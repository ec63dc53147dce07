/** A student's per-test scores in the five subjects and the averages
    computed from them (the `Student` class of project.py). The class never
    changes its lists after construction, so it is a value here. */
module StudentRecord {
  import opened Common

  /** One test slot: `None` when no score was entered, else a percentage. */
  type Score = Option<real>

  /** A Student as `getattr(student, sub)` sees it: the test slots of each subject. */
  datatype Student = Student(lists: Subject -> seq<Score>)
  {
    /** `getattr(student, sub)`. */
    function Scores(sub: Subject): seq<Score>
    {
      lists(sub)
    }
  }

  /** `Student(math=..., phy=..., chem=..., bio=..., cs=...)`, which stores
      `math or []` and so on; a missing list and an empty list are the same here. */
  function MakeStudent(math: seq<Score>, phy: seq<Score>, chem: seq<Score>,
                       bio: seq<Score>, cs: seq<Score>): Student
  {
    Student((sub: Subject) =>
      match sub
      case Math => math
      case Phy => phy
      case Chem => chem
      case Bio => bio
      case Cs => cs)
  }

  const NoScores := Student((sub: Subject) => [])

  /** Python's truthiness test `if score` on one slot: `None` and `0.0` fail it. */
  predicate Counted(s: Score)
  {
    s.Some? && s.value != 0.0
  }

  /** `[score for score in scores if score]`: the counted scores, in order. */
  function Present(scores: seq<Score>): seq<real>
  {
    if scores == [] then []
    else
      var init := scores[..|scores| - 1];
      var last := scores[|scores| - 1];
      Present(init) + (if Counted(last) then [last.value] else [])
  }

  /** The counted scores are exactly the entered non-zero ones, and there are
      none exactly when no slot passes the truthiness test. */
  lemma {:induction false} PresentMembers(scores: seq<Score>)
    ensures forall x :: x in Present(scores) <==> Some(x) in scores && x != 0.0
    ensures Present(scores) == [] <==> forall i :: 0 <= i < |scores| ==> !Counted(scores[i])
  {
    if scores != [] {
      var init := scores[..|scores| - 1];
      var last := scores[|scores| - 1];
      assert scores == init + [last];
      PresentMembers(init);
    }
  }

  /** Each non-zero score is counted as many times as it was entered, so the
      mean weighs repeated scores as the list does. */
  lemma {:induction false} PresentCounts(scores: seq<Score>)
    ensures forall x :: x != 0.0 ==> multiset(Present(scores))[x] == multiset(scores)[Some(x)]
  {
    if scores != [] {
      var init := scores[..|scores| - 1];
      var last := scores[|scores| - 1];
      assert scores == init + [last];
      PresentCounts(init);
    }
  }

  /** `<sub>_average()`: the mean of the counted scores, 0 when there are none. */
  function SubjectAverage(st: Student, sub: Subject): real
  {
    var valid := Present(st.Scores(sub));
    CountIsLength(valid);
    if valid == [] then 0.0 else Mean(valid)
  }

  /** `[avg for avg in averages if avg > 0]`. */
  function Positives(xs: seq<real>): seq<real>
  {
    if xs == [] then []
    else
      var init := xs[..|xs| - 1];
      var last := xs[|xs| - 1];
      Positives(init) + (if last > 0.0 then [last] else [])
  }

  /** The kept averages are exactly the strictly positive ones. */
  lemma {:induction false} PositivesMembers(xs: seq<real>)
    ensures forall x :: x in Positives(xs) <==> x in xs && x > 0.0
  {
    if xs != [] {
      var init := xs[..|xs| - 1];
      var last := xs[|xs| - 1];
      assert xs == init + [last];
      PositivesMembers(init);
    }
  }

  /** The five subject averages, in the order `average()` lists them. */
  function SubjectAverages(st: Student): (r: seq<real>)
    ensures |r| == 5
    ensures forall i :: 0 <= i < 5 ==> r[i] == SubjectAverage(st, Subjects[i])
  {
    [SubjectAverage(st, Math), SubjectAverage(st, Phy), SubjectAverage(st, Chem),
     SubjectAverage(st, Bio), SubjectAverage(st, Cs)]
  }

  /** `average()`: mean of the strictly positive subject averages, 0 if none. */
  function Average(st: Student): real
  {
    var valid := Positives(SubjectAverages(st));
    CountIsLength(valid);
    if valid == [] then 0.0 else Mean(valid)
  }

  /** Every entered score is a percentage in [0, 100]. */
  ghost predicate Percentages(st: Student)
  {
    forall sub: Subject, x: real :: Some(x) in st.Scores(sub) ==> 0.0 <= x <= 100.0
  }

  /** Appending a slot that fails the truthiness test leaves the counted scores alone,
      so a missing test and a score of exactly 0 weigh the same. */
  lemma UncountedSlotIgnored(scores: seq<Score>, s: Score)
    requires !Counted(s)
    ensures Present(scores + [s]) == Present(scores)
  {
    assert (scores + [s])[..|scores|] == scores;
  }

  /** The subject average is the arithmetic mean of the counted scores, and 0
      exactly when the list holds no counted score (or when those cancel out). */
  lemma SubjectAverageIsMean(st: Student, sub: Subject)
    ensures var p := Present(st.Scores(sub));
      (p == [] ==> SubjectAverage(st, sub) == 0.0) &&
      (p != [] ==> SubjectAverage(st, sub) * |p| as real == Sum(p))
  {
    CountIsLength(Present(st.Scores(sub)));
  }

  /** With percentages as scores, a subject average is a percentage. */
  lemma SubjectAverageBounds(st: Student, sub: Subject)
    requires Percentages(st)
    ensures 0.0 <= SubjectAverage(st, sub) <= 100.0
  {
    var p := Present(st.Scores(sub));
    PresentMembers(st.Scores(sub));
    if p != [] {
      forall i | 0 <= i < |p| ensures 0.0 <= p[i] <= 100.0 {
        assert p[i] in p;
      }
      MeanBounds(p, 0.0, 100.0);
    }
  }

  /** With non-negative scores, a subject average is positive exactly when some
      entered score is positive. */
  lemma SubjectAveragePositive(st: Student, sub: Subject)
    requires Percentages(st)
    ensures SubjectAverage(st, sub) > 0.0 <==> exists x :: Some(x) in st.Scores(sub) && x > 0.0
  {
    var p := Present(st.Scores(sub));
    PresentMembers(st.Scores(sub));
    if p != [] {
      forall i | 0 <= i < |p| ensures p[i] > 0.0 {
        assert p[i] in p;
      }
      MeanPositive(p);
      assert Some(p[0]) in st.Scores(sub);
    } else {
      forall x | Some(x) in st.Scores(sub) ensures x <= 0.0 {
        assert x !in p;
      }
    }
  }

  /** The overall average is never negative, whatever the scores. */
  lemma {:induction false} AverageNonNegative(st: Student)
    ensures Average(st) >= 0.0
  {
    var valid := Positives(SubjectAverages(st));
    PositivesMembers(SubjectAverages(st));
    if valid != [] {
      forall i | 0 <= i < |valid| ensures valid[i] > 0.0 {
        assert valid[i] in valid;
      }
      MeanPositive(valid);
    }
  }

  /** The overall average is positive exactly when some subject average is. */
  lemma AveragePositiveIff(st: Student)
    ensures Average(st) > 0.0 <==> exists sub: Subject :: SubjectAverage(st, sub) > 0.0
  {
    var all := SubjectAverages(st);
    var valid := Positives(all);
    PositivesMembers(all);
    if valid != [] {
      forall i | 0 <= i < |valid| ensures valid[i] > 0.0 {
        assert valid[i] in valid;
      }
      MeanPositive(valid);
      assert valid[0] in all;
      var k :| 0 <= k < 5 && all[k] == valid[0];
      assert SubjectAverage(st, Subjects[k]) > 0.0;
    } else {
      forall sub: Subject ensures SubjectAverage(st, sub) <= 0.0 {
        assert all[sub.Index()] == SubjectAverage(st, sub);
        assert SubjectAverage(st, sub) in all;
      }
    }
  }

  /** The averages `average()` takes the mean of are exactly the positive
      subject averages. */
  lemma PositiveSubjectAverages(st: Student)
    ensures forall x :: x in Positives(SubjectAverages(st)) <==>
      x > 0.0 && exists sub: Subject :: SubjectAverage(st, sub) == x
  {
    var all := SubjectAverages(st);
    var p := Positives(all);
    PositivesMembers(all);
    forall x | x in p
      ensures exists sub: Subject :: SubjectAverage(st, sub) == x
    {
      assert x in all;
      var k :| 0 <= k < 5 && all[k] == x;
      assert SubjectAverage(st, Subjects[k]) == x;
    }
    forall x | x > 0.0 && exists sub: Subject :: SubjectAverage(st, sub) == x
      ensures x in p
    {
      var sub: Subject :| SubjectAverage(st, sub) == x;
      assert all[sub.Index()] == x;
    }
  }

  /** With percentages as scores, the overall average is a percentage. */
  lemma AverageBounds(st: Student)
    requires Percentages(st)
    ensures 0.0 <= Average(st) <= 100.0
  {
    var all := SubjectAverages(st);
    var valid := Positives(all);
    PositivesMembers(all);
    if valid != [] {
      forall i | 0 <= i < |valid| ensures 0.0 <= valid[i] <= 100.0 {
        assert valid[i] in valid;
        var k :| 0 <= k < 5 && all[k] == valid[i];
        SubjectAverageBounds(st, Subjects[k]);
      }
      MeanBounds(valid, 0.0, 100.0);
    }
  }

  /** A student with no entered score anywhere has overall average 0. */
  lemma NoScoresAverage()
    ensures Average(NoScores) == 0.0
  {
    AveragePositiveIff(NoScores);
    AverageNonNegative(NoScores);
  }

  const Example := MakeStudent([Some(80.0), Some(90.0), None], [Some(70.0), Some(80.0), Some(90.0)], [], [], [])

  lemma ExampleMathScores()
    ensures Present([Some(80.0), Some(90.0), None]) == [80.0, 90.0]
  {
    var m := [Some(80.0), Some(90.0), None];
    assert m[..2] == [Some(80.0), Some(90.0)] && m[..2][..1] == [Some(80.0)];
    assert Present(m[..2][..1]) == [80.0];
    assert Present(m[..2]) == [80.0, 90.0];
  }

  lemma ExamplePhyScores()
    ensures Present([Some(70.0), Some(80.0), Some(90.0)]) == [70.0, 80.0, 90.0]
  {
    var f := [Some(70.0), Some(80.0), Some(90.0)];
    assert f[..2] == [Some(70.0), Some(80.0)] && f[..2][..1] == [Some(70.0)];
    assert Present(f[..2][..1]) == [70.0];
    assert Present(f[..2]) == [70.0, 80.0];
  }

  /** `Student(math=[80, 90, None], ...)`: the math average is 85. */
  lemma ExampleMathAverage()
    ensures SubjectAverage(Example, Math) == 85.0
  {
    assert Example.Scores(Math) == [Some(80.0), Some(90.0), None];
    ExampleMathScores();
    assert Sum([80.0, 90.0]) == 170.0 by {
      assert [80.0, 90.0][..1] == [80.0];
    }
    CountIsLength([80.0, 90.0]);
  }

  /** `Student(..., phy=[70, 80, 90])`: the physics average is 80. */
  lemma ExamplePhyAverage()
    ensures SubjectAverage(Example, Phy) == 80.0
  {
    assert Example.Scores(Phy) == [Some(70.0), Some(80.0), Some(90.0)];
    ExamplePhyScores();
    assert Sum([70.0, 80.0, 90.0]) == 240.0 by {
      assert [70.0, 80.0, 90.0][..2] == [70.0, 80.0];
      assert [70.0, 80.0][..1] == [70.0];
    }
    CountIsLength([70.0, 80.0, 90.0]);
  }

  lemma PositivesOfExample()
    ensures Positives([85.0, 80.0, 0.0, 0.0, 0.0]) == [85.0, 80.0]
  {
    var all := [85.0, 80.0, 0.0, 0.0, 0.0];
    assert all[..4] == [85.0, 80.0, 0.0, 0.0];
    assert all[..4][..3] == [85.0, 80.0, 0.0];
    assert all[..4][..3][..2] == [85.0, 80.0];
    assert all[..4][..3][..2][..1] == [85.0];
    assert Positives([85.0]) == [85.0] by {
      assert [85.0][..0] == [];
    }
    assert Positives([85.0, 80.0]) == [85.0, 80.0];
    assert Positives([85.0, 80.0, 0.0]) == [85.0, 80.0];
    assert Positives([85.0, 80.0, 0.0, 0.0]) == [85.0, 80.0];
  }

  /** `Student(math=[80, 90, None], phy=[70, 80, 90])`: overall 82.5, the mean of
      85 and 80, the three empty subjects being left out. */
  lemma ExampleOverallAverage()
    ensures Average(Example) == 82.5
  {
    ExampleMathAverage();
    ExamplePhyAverage();
    assert Present([]) == [];
    assert SubjectAverages(Example) == [85.0, 80.0, 0.0, 0.0, 0.0];
    PositivesOfExample();
    assert Sum([85.0, 80.0]) == 165.0 by {
      assert [85.0, 80.0][..1] == [85.0];
    }
    CountIsLength([85.0, 80.0]);
  }

  /** Two entered non-zero scores average to their midpoint. */
  lemma PairAverage(st: Student, sub: Subject, x: real, y: real)
    requires st.Scores(sub) == [Some(x), Some(y)] && x != 0.0 && y != 0.0
    ensures SubjectAverage(st, sub) == (x + y) / 2.0
  {
    var p := [Some(x), Some(y)];
    assert p[..1] == [Some(x)] && [Some(x)][..0] == [];
    assert Present([Some(x)]) == [x];
    assert Present(p) == [x, y];
    assert [x, y][..1] == [x] && [x][..0] == [];
    assert Sum([x]) == x && Count([x]) == 1.0;
    assert Sum([x, y]) == x + y && Count([x, y]) == 2.0;
  }

  /** A student scored in math and physics only: the overall average is the mean
      of the two subject averages when both are positive, the math average when
      physics has none. */
  lemma MathPhyAverage(st: Student)
    requires st.Scores(Chem) == [] && st.Scores(Bio) == [] && st.Scores(Cs) == []
    requires SubjectAverage(st, Math) > 0.0 && SubjectAverage(st, Phy) >= 0.0
    ensures SubjectAverage(st, Phy) > 0.0 ==>
      Average(st) == (SubjectAverage(st, Math) + SubjectAverage(st, Phy)) / 2.0
    ensures SubjectAverage(st, Phy) == 0.0 ==> Average(st) == SubjectAverage(st, Math)
  {
    var m := SubjectAverage(st, Math);
    var f := SubjectAverage(st, Phy);
    assert Present([]) == [];
    assert SubjectAverages(st) == [m, f, 0.0, 0.0, 0.0];
    PositivesOfTwo(m, f);
    if f > 0.0 {
      MeanOfTwo(m, f);
    } else {
      MeanOfOne(m);
    }
  }

  /** `[avg for avg in [m, f, 0, 0, 0] if avg > 0]`. */
  lemma PositivesOfTwo(m: real, f: real)
    requires m > 0.0 && f >= 0.0
    ensures Positives([m, f, 0.0, 0.0, 0.0]) == if f > 0.0 then [m, f] else [m]
  {
    var all := [m, f, 0.0, 0.0, 0.0];
    assert all[..4] == [m, f, 0.0, 0.0] && all[..4][..3] == [m, f, 0.0];
    assert all[..4][..3][..2] == [m, f] && [m, f][..1] == [m] && [m][..0] == [];
    assert Positives([m]) == [m];
    var kept := if f > 0.0 then [m, f] else [m];
    assert Positives([m, f]) == kept;
    assert Positives([m, f, 0.0]) == kept;
    assert Positives([m, f, 0.0, 0.0]) == kept;
  }

  lemma MeanOfTwo(m: real, f: real)
    ensures Count([m, f]) == 2.0 && Mean([m, f]) == (m + f) / 2.0
  {
    assert [m, f][..1] == [m] && [m][..0] == [];
    assert Sum([m]) == m && Count([m]) == 1.0;
    assert Sum([m, f]) == m + f && Count([m, f]) == 2.0;
  }

  lemma MeanOfOne(m: real)
    ensures Count([m]) == 1.0 && Mean([m]) == m
  {
    assert [m][..0] == [];
    assert Sum([m]) == m && Count([m]) == 1.0;
  }

  /** `Student(math=[None, None], phy=[])`: every average is 0. */
  lemma ExampleEmptyScores()
    ensures var st := MakeStudent([None, None], [], [], [], []);
      SubjectAverage(st, Math) == 0.0 && SubjectAverage(st, Phy) == 0.0 && Average(st) == 0.0
  {
    var st := MakeStudent([None, None], [], [], [], []);
    assert Present(st.Scores(Math)) == [];
    AveragePositiveIff(st);
    AverageNonNegative(st);
  }
}
