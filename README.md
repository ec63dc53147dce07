# Gradebook scoring and ranking, modelled in Dafny

`project.py` is a command-line gradebook for a school with five subjects (math,
physics, chemistry, biology, computer science). A roster (`users.csv`) lists
students, who carry a GRN (the school's student number), and teachers, whose GRN
cell is empty. Each row has one "1"/"0" flag per subject. For each subject a
score file maps a GRN to that student's test slots, each a percentage or
missing. This project models the part of the program that turns those tables
into numbers:

- per-student subject and overall averages (the `Student` class);
- `load_students`, which builds one `Student` per roster GRN;
- the student ranking, the teacher averages and the class average;
- a student's rank in each enrolled subject, and their overall rank;
- the data a teacher's menu shows (`prepare_teacher_data`), which reads the
  subject a teacher teaches (`get_teacher_subject`);
- the enrolled subjects of a student row (`get_enrolled_subjects`);
- the GRN given to a new student account.

Modules, one per file:

| file | module | what it holds |
|---|---|---|
| `common.dfy` | `Common` | `Option`, `Result`, the errors the program raises, `Subject`, `Sum`, `Count` (the length as a real), `Mean` |
| `student.dfy` | `StudentRecord` | `Student`, subject and overall averages |
| `roster.dfy` | `Roster` | roster rows, subject flags, enrolled subjects, a teacher's subject, new GRNs |
| `sorting.dfy` | `Sorting` | `sorted(..., reverse=True)` as a stable insertion sort into non-increasing order |
| `store.dfy` | `Store` | the five subject dicts, `load_students` |
| `ranking.dfy` | `Ranking` | `calculate_student_rankings` |
| `teacher_report.dfy` | `TeacherReport` | `calculate_teacher_averages`, `calculate_class_average` |
| `subject_ranks.dfy` | `SubjectRanks` | `calculate_student_ranks_in_subjects`, `calculate_overall_rank` |
| `teacher_view.dfy` | `TeacherView` | `prepare_teacher_data`, with its dict objects as a class |

How the Python maps to Dafny:

- A failure the Python code would raise becomes an `Err` of `Result`:
  - a `KeyError` from `students[grn]` is `UnknownIdentifier(grn)`;
  - a division by an empty list's length is `NoStudentsInSubject`;
  - a teacher variable that was never bound is `UnboundTeacherSubject`;
  - `int()` on a GRN that is not a numeral is `MalformedGrn(grn)`;
  - a `None` subject passed to `prepare_teacher_data` is `NoSubject`.

  No operation puts a precondition on data the program does not check.
- The loops of the program are methods with loop invariants. Each is proved
  equal to a specification function. The properties the program promises are
  lemmas about those functions.
- `prepare_teacher_data` returns two lists that hold the same dict objects:
  the rows in dict order and the rows sorted by average. A rank written
  through the sorted list is seen through the first list too. The model keeps
  this sharing: each dict is a `TeacherRow` object, and the proof shows every
  row of the first list carries the rank of its place in the sorted list.

Behaviour of the code that differs from what a reader of the comments might
expect, and that the model follows:

- The slot filter `[score for score in ... if score]` drops a score of exactly
  0 as well as a missing one. A test scored 0 therefore does not lower a
  subject average (`StudentRecord.UncountedSlotIgnored`).
- `calculate_teacher_averages` keeps the *last* flagged subject of a teacher
  row, while `get_teacher_subject` returns the *first*. On a row with one flag
  the two agree (`Roster.SingleFlagFirstIsLast`).
- In `calculate_teacher_averages`, a teacher row with no flag reuses the
  subject and name left by the previous teacher row. On the first such row the
  variable is unbound, which gives `UnboundTeacherSubject`.
- A teacher average is taken over every key of the subject's dict, whatever
  the roster's flags say.
- A subject rank is 1 + the number of enrolled peers with a strictly greater
  average. Equal averages share a rank, and the total counts the enrolled
  student rows.

## Model

| member | source | states |
|---|---|---|
| StudentRecord.Present | project.py:20 | `[score for score in scores if score]`: the counted scores in slot order; which ones, and how often, is stated by the next two rows |
| StudentRecord.PresentMembers | project.py:20 | the counted scores are exactly the entered, non-zero ones; there are none exactly when no slot passes the truthiness test |
| StudentRecord.PresentCounts | project.py:20 | each non-zero score is counted exactly as many times as it was entered |
| StudentRecord.UncountedSlotIgnored | project.py:20 | appending a missing or zero slot leaves the counted scores unchanged |
| StudentRecord.SubjectAverage | project.py:19-37 | `<sub>_average()`: the mean of the counted scores, 0 when there are none; its properties are the rows that follow |
| StudentRecord.SubjectAverageIsMean | project.py:19-21 | a subject average is 0 when nothing is counted, and otherwise times the count equals the sum of the counted scores |
| StudentRecord.SubjectAverageBounds | project.py:19-21 | with percentage scores, a subject average lies in [0, 100] |
| StudentRecord.SubjectAveragePositive | project.py:19-21 | with percentage scores, a subject average is positive exactly when some entered score is positive |
| StudentRecord.PositivesMembers | project.py:50 | the kept averages are exactly the strictly positive ones |
| StudentRecord.PositiveSubjectAverages | project.py:42-50 | the averages `average()` takes the mean of are exactly the positive subject averages |
| StudentRecord.Average | project.py:42-51 | `average()`: the mean of the strictly positive subject averages, 0 when there are none; its properties are the rows that follow |
| StudentRecord.AverageNonNegative | project.py:42-51 | the overall average is never negative |
| StudentRecord.AveragePositiveIff | project.py:42-51 | the overall average is positive exactly when some subject average is positive |
| StudentRecord.AverageBounds | project.py:42-51 | with percentage scores, the overall average lies in [0, 100] |
| StudentRecord.NoScoresAverage | project.py:42-51 | a student with no scores at all has overall average 0 |
| StudentRecord.PairAverage | project.py:19-21 | two entered non-zero scores average to their midpoint |
| StudentRecord.MathPhyAverage | project.py:42-51 | for a student scored in math and physics only, the overall average is the mean of the two positive subject averages, or the math average alone |
| StudentRecord.ExampleMathAverage | test_project.py:41-42 | math slots 80, 90, missing average to 85 |
| StudentRecord.ExamplePhyAverage | test_project.py:41-43 | physics slots 70, 80, 90 average to 80 |
| StudentRecord.ExampleOverallAverage | test_project.py:41-44 | that student's overall average is 82.5, the three empty subjects left out |
| StudentRecord.ExampleEmptyScores | test_project.py:46-52 | with only missing or no slots, every average is 0 |
| Roster.EnrolledSubjects | project.py:470-472 | `get_enrolled_subjects`: the flagged subjects in the fixed order, as the next row states |
| Roster.EnrolledSubjectsMeaning | project.py:470-472 | the enrolled subjects are exactly the flagged ones, each once, in the fixed subject order |
| Roster.FirstFlag | project.py:345-347 | the result is a flagged subject with no flagged subject before it, or none when no flag is set |
| Roster.LastFlag | project.py:135-138 | the result is a flagged subject with no flagged subject after it, or none when no flag is set |
| Roster.SingleFlagFirstIsLast | project.py:135-138 | on a row with exactly one flag, the first and the last flagged subject are that subject |
| Roster.EnrolledMembers | project.py:169-171 | the rows counted for a subject are exactly the student rows flagged for it |
| Roster.TeacherSubject | project.py:342-348 | the first flagged subject of the first row with the name that has a flag; none exactly when no row with the name has a flag |
| Roster.NumeralRoundTrip | project.py:261 | `int(str(n)) == n` |
| Roster.MaxGrn | project.py:257-260 | the result is at least every GRN, and it is 0 or one of the GRNs |
| Roster.NewGrnIsFresh | project.py:257-261 | the new GRN is larger than every existing GRN, so no roster row has it |
| Roster.NewGrn | project.py:257-261 | fails exactly when some GRN is not a numeral, naming one; otherwise returns a numeral that no roster row has, namely one more than the largest GRN |
| Sorting.SortDesc | project.py:126 | the result is a permutation of the input, in non-increasing key order |
| Sorting.SortDescStable | project.py:126 | elements with equal keys keep their input order |
| Sorting.SortDescDistinct | project.py:370 | sorting a list without repeats gives a list without repeats |
| Store.StudentFor | project.py:108-114 | the Student built for one GRN from `.get(grn, [])` in each dict |
| Store.StudentForScores | project.py:108-114 | a dict without the GRN gives it an empty list; a dict holding it once gives it that entry's slots |
| Store.Get | project.py:108-112 | `data.get(grn, [])` is empty when the key is absent, and is the key's list when the keys are distinct |
| Store.LoadStudents | project.py:104-115 | one Student per non-empty roster GRN, each built from that GRN's lists in the five dicts |
| Store.LoadedRosterKnown | project.py:104-115 | the map `load_students` builds has a Student for every roster GRN and every enrolled row |
| Store.FirstUnknown | project.py:147-148 | the first dict key without a Student, where the loop raises |
| Store.CollectSubjectAverages | project.py:146-148 | the subject averages of the dict's keys in order, or the error of the first unknown key |
| Ranking.RankingEntries | project.py:120-125 | the list built before sorting holds at most one line per roster row |
| Ranking.RankingEntriesRows | project.py:120-125 | one line per roster row with a GRN, in roster order, with that row's name and overall average |
| Ranking.CollectRankingEntries | project.py:120-125 | fails exactly when a roster GRN has no Student, naming the first such GRN in roster order; otherwise returns the lines above |
| Ranking.StudentRankings | project.py:119-127 | fails exactly when a roster GRN has no Student, naming the first such GRN in roster order; otherwise a permutation of the lines, in non-increasing average, with ties kept in roster order |
| Ranking.UnscoredStudentLowest | project.py:119-127 | a student with no counted score has average 0, no higher than any other student's |
| Ranking.EntriesTwo | project.py:120-125 | a two-row roster of students gives their two lines in roster order |
| Ranking.SortTwo | project.py:126 | of two lines, the strictly higher one is sorted first |
| Ranking.StudentRankingsExample | test_project.py:9-19 | the test's ranking has two lines, with Student B first |
| TeacherReport.TeacherWalk | project.py:131-151 | what the teacher loop returns or raises from a roster position on, given the subject and name the earlier rows left behind |
| TeacherReport.TeacherResults | project.py:131-151 | `calculate_teacher_averages` is the walk from the roster's start with nothing held |
| TeacherReport.TeacherAverages | project.py:131-151 | the loop returns exactly what the teacher walk specifies, errors included |
| TeacherReport.TeacherWalkOk | project.py:133-150 | with one flag per teacher row, the walk succeeds exactly when every teacher's dict is non-empty and all its keys are known |
| TeacherReport.TeacherWalkLines | project.py:133-150 | a successful walk gives one line per teacher row, in roster order: the teacher's name and the mean subject average over the dict's keys |
| TeacherReport.TeacherResultsMeaning | project.py:131-151 | with one flag per teacher row, `calculate_teacher_averages` fails exactly when some teacher's dict is empty or names an unknown GRN, and otherwise returns one line per teacher row |
| TeacherReport.ClassAverage | project.py:155-159 | fails exactly on an empty list; otherwise returns the mean of the averages |
| TeacherReport.ClassAverageExample | test_project.py:21-25 | the mean of 80, 90 and 85 is 85 |
| SubjectRanks.CountAbove | project.py:169-175 | the number of rows strictly above a threshold is at most the number of rows |
| SubjectRanks.RankAt | project.py:167-176 | the line for an average: its subject, the enrolled total, and a rank between 1 and total + 1 |
| SubjectRanks.RankStep | project.py:169-175 | one more roster row adds 1 to the total when it is enrolled, and 1 to the count above when its average is strictly greater |
| SubjectRanks.UnknownPeer | project.py:170-173 | an enrolled row whose GRN has no Student makes the enrolled peers of the roster not all known |
| SubjectRanks.VisitRow | project.py:170-175 | one pass over a row fails exactly for an enrolled row without a Student, and otherwise carries the enrolled count and the count above from the prefix before the row to the prefix including it |
| SubjectRanks.RankInSubject | project.py:167-176 | fails exactly when an enrolled row's GRN has no Student, naming the first such row's GRN; otherwise returns 1 + the enrolled peers strictly above, out of all enrolled |
| SubjectRanks.StudentRanksInSubjects | project.py:163-177 | one line per enrolled subject, in order, each the rank of the student's own average among the enrolled peers; fails exactly when a needed GRN is unknown, naming the student's own GRN or else the first unknown enrolled row of the first subject that has one |
| SubjectRanks.CountAboveAntitone | project.py:174-175 | a lower threshold never counts fewer peers |
| SubjectRanks.CountAboveZero | project.py:174-175 | nothing is counted exactly when every peer is at or below the threshold |
| SubjectRanks.SubjectRankTop | project.py:163-177 | a student ranks first in a subject exactly when no enrolled peer has a strictly higher average |
| SubjectRanks.SubjectRankMonotone | project.py:163-177 | a student with an average at least another's never ranks below them |
| SubjectRanks.SubjectRankWithinTotal | project.py:163-177 | an enrolled student's rank is at most the number of enrolled students |
| SubjectRanks.AboveStep | project.py:184-187 | visiting one more student uncovers it among those above exactly when its average is strictly greater |
| SubjectRanks.Above | project.py:184-187 | the students with a strictly greater overall average are among the students |
| SubjectRanks.OverallRank | project.py:181-188 | fails exactly when the student's GRN has no Student; otherwise returns 1 + the number of students with a strictly greater overall average |
| SubjectRanks.OverallRankBounds | project.py:181-188 | the overall rank lies between 1 and the number of students, and is 1 exactly for a student with the highest average |
| SubjectRanks.OverallRankStudentsAverages | test_project.py:27-34 | the test's three students average 85, 90 and 75 |
| SubjectRanks.OverallRankExample | test_project.py:27-37 | the test's student "1" ranks 2nd |
| TeacherView.TeacherRow.constructor | project.py:362 | a new line holds its GRN, scores and average, with no name and no rank yet |
| TeacherView.NameOf | project.py:365-368 | none exactly when no roster row has the GRN; otherwise the name of the first row that has it |
| TeacherView.FindName | project.py:365-368 | the lookup loop returns that name |
| TeacherView.BuildRows | project.py:361-362 | fails at the first dict key without a Student; otherwise one new line per key, in dict order, holding the key's scores and subject average |
| TeacherView.FillNames | project.py:364-368 | each line gets the name of the first roster row with its GRN, and no rank changes |
| TeacherView.AssignRanks | project.py:371-374 | the sorted lines get ranks 1, 2, ... in order, and no name changes |
| TeacherView.RankedHoldsRows | project.py:370-374 | every line of the unsorted list carries the rank of its place in the sorted list |
| TeacherView.PrepareTeacherData | project.py:351-376 | fails exactly when no subject is given (`NoSubject`) or a dict key has no Student (the first such key's error); on success, the lines in dict order with names, the same lines sorted stably by average, ranked 1..n, each line placed by its rank |

## Left out

- Reading and writing CSV files, the login, the menus, printing and tables,
  e-mail addresses and passwords. They are I/O. The roster and the five
  subject dicts are parameters.
- The account-creation dialogue, and the rows it writes. Only the GRN
  arithmetic is modelled (`Roster.NewGrn`).
- `load_subject`'s parsing of `a/b` cells into `(a / b) * 100`. Scores are
  given as reals or missing.
- `teacher_find_student` and `get_student_row`. They are lookups for
  printing and are not part of the scoring core.
- Floating point: averages are exact reals, so rounding in `sum` and `/` is
  not modelled.
- Roster.NewGrn: Python's `int()` also accepts surrounding whitespace, a sign
  and underscores. The model accepts only plain decimal digits and reports
  anything else as `MalformedGrn`.
- Store.Get: a dict holds each key once. The model's table is a list of
  entries, and the lookup's value is stated only for tables whose keys are
  distinct (`DistinctKeys`).
- Sorting.SortDesc: Timsort is replaced by an insertion sort. Both are
  stable, so they give the same list.
- SubjectRanks.OverallRank: `students.values()` is visited in the map's
  order. The model visits the keys in an arbitrary order; the count does not
  depend on the order.
- TeacherReport.TeacherResultsMeaning: the closed form of the teacher report
  is stated for rosters where every teacher row has exactly one flag. Rows
  with several flags or none are covered by `TeacherReport.TeacherAverages`
  through the walk function, not by a closed form.
- Store.Table: every table stands for a Python dict, which holds each key
  once. No operation requires this (`DistinctKeys`), so `CollectSubjectAverages`,
  `TeacherWalk` and `BuildRows` also describe tables with a repeated key,
  which no dict has.
