/** `prepare_teacher_data`: the per-student lines a teacher sees for their
    subject. Python builds one dict per student and returns two lists holding
    the same dicts, one in dict order and one sorted by average; setting a
    name or a rank through either list is seen through both. Each dict is a
    `TeacherRow` object here, so the two sequences alias in the same way. */
module TeacherView {
  import opened Common
  import opened StudentRecord
  import opened Roster
  import opened Sorting
  import opened Store

  /** One `{"grn", "name", "scores", "average", "rank"}` dict. */
  class TeacherRow {
    const grn: string
    const scores: seq<Score>
    const average: real
    var name: Option<string>
    var rank: Option<nat>

    /** The dict as first appended: no name yet and no `"rank"` key. */
    constructor (grn: string, scores: seq<Score>, average: real)
      ensures this.grn == grn && this.scores == scores && this.average == average
      ensures name == None && rank == None
    {
      this.grn := grn;
      this.scores := scores;
      this.average := average;
      name := None;
      rank := None;
    }
  }

  /** `key=lambda student: student["average"]`. */
  function AverageOf(row: TeacherRow): real
  {
    row.average
  }

  /** The name of the first roster row with this GRN, if there is one. */
  function NameOf(roster: seq<Row>, grn: string): (n: Option<string>)
    ensures n.None? <==> forall i :: 0 <= i < |roster| ==> roster[i].grn != grn
    ensures n.Some? ==> exists i :: (0 <= i < |roster| && roster[i].grn == grn && roster[i].name == n.value &&
      forall k :: 0 <= k < i ==> roster[k].grn != grn)
  {
    if roster == [] then None
    else if roster[0].grn == grn then Some(roster[0].name)
    else
      var n := NameOf(roster[1..], grn);
      assert forall i :: 0 < i < |roster| ==> roster[i] == roster[1..][i - 1];
      n
  }

  /** The inner loop that looks a GRN up in the roster and stops at the first match. */
  method FindName(roster: seq<Row>, grn: string) returns (n: Option<string>)
    ensures n == NameOf(roster, grn)
  {
    for j := 0 to |roster|
      invariant NameOf(roster, grn) == NameOf(roster[j..], grn)
    {
      assert roster[j..][0] == roster[j] && roster[j..][1..] == roster[j + 1..];
      if roster[j].grn == grn {
        return Some(roster[j].name);
      }
    }
    return None;
  }

  /** The two lists `prepare_teacher_data` returns. */
  datatype TeacherData = TeacherData(rows: seq<TeacherRow>, ranked: seq<TeacherRow>)

  /** The first loop: one fresh line per key of the subject dict, in dict order,
      raising at the first key without a Student. */
  method BuildRows(t: Table, students: map<string, Student>, sub: Subject)
    returns (r: Result<seq<TeacherRow>>)
    ensures r.Err? <==> !TableKnown(t, students)
    ensures r.Err? ==> r.error == UnknownIdentifier(FirstUnknown(t, students))
    ensures r.Ok? ==> (TableKnown(t, students) && |r.value| == |t| && Distinct(r.value) &&
      forall i :: 0 <= i < |t| ==> (fresh(r.value[i]) &&
        r.value[i].grn == t[i].grn && r.value[i].scores == students[t[i].grn].Scores(sub) &&
        r.value[i].average == SubjectAverage(students[t[i].grn], sub) &&
        r.value[i].name == None && r.value[i].rank == None))
  {
    var rows: seq<TeacherRow> := [];
    for i := 0 to |t|
      invariant TableKnown(t[..i], students)
      invariant |rows| == i && Distinct(rows)
      invariant forall k :: 0 <= k < i ==> (fresh(rows[k]) &&
        rows[k].grn == t[k].grn && rows[k].scores == students[t[k].grn].Scores(sub) &&
        rows[k].average == SubjectAverage(students[t[k].grn], sub) &&
        rows[k].name == None && rows[k].rank == None)
    {
      var grn := t[i].grn;
      if grn !in students {
        FirstUnknownAt(t, students, i);
        return Err(UnknownIdentifier(grn));
      }
      var st := students[grn];
      var row := new TeacherRow(grn, st.Scores(sub), SubjectAverage(st, sub));
      rows := rows + [row];
      ghost var prefix := t[..i + 1];
      assert TableKnown(prefix, students) by {
        forall k | 0 <= k <= i ensures prefix[k].grn in students {
          if k < i {
            assert prefix[k] == t[..i][k];
          }
        }
      }
    }
    assert t[..|t|] == t;
    return Ok(rows);
  }

  /** The second loop: each line takes the name of the first roster row with its GRN. */
  method FillNames(rows: seq<TeacherRow>, roster: seq<Row>)
    requires Distinct(rows)
    requires forall k :: 0 <= k < |rows| ==> rows[k].name == None
    modifies set row | row in rows
    ensures forall k :: 0 <= k < |rows| ==> rows[k].name == NameOf(roster, rows[k].grn)
    ensures forall k :: 0 <= k < |rows| ==> rows[k].rank == old(rows[k].rank)
  {
    for i := 0 to |rows|
      invariant forall k :: 0 <= k < i ==> rows[k].name == NameOf(roster, rows[k].grn)
      invariant forall k :: i <= k < |rows| ==> rows[k].name == None
      invariant forall k :: 0 <= k < |rows| ==> rows[k].rank == old(rows[k].rank)
    {
      var student := rows[i];
      var name := FindName(roster, student.grn);
      if name.Some? {
        student.name := name;
      }
    }
  }

  /** The last loop: the sorted lines get ranks 1, 2, ... in order. */
  method AssignRanks(ranked: seq<TeacherRow>)
    requires Distinct(ranked)
    modifies set row | row in ranked
    ensures forall k :: 0 <= k < |ranked| ==> ranked[k].rank == Some(k + 1)
    ensures forall x :: x in ranked ==> x.name == old(x.name)
  {
    var rank := 1;
    for i := 0 to |ranked|
      invariant rank == i + 1
      invariant forall k :: 0 <= k < i ==> ranked[k].rank == Some(k + 1)
      invariant forall x :: x in ranked ==> x.name == old(x.name)
    {
      ranked[i].rank := Some(rank);
      rank := rank + 1;
    }
  }

  /** Lists that are permutations of each other hold the same lines. */
  lemma SameElements(rows: seq<TeacherRow>, ranked: seq<TeacherRow>)
    requires multiset(ranked) == multiset(rows)
    ensures forall x :: x in ranked <==> x in rows
  {
    forall x ensures x in ranked <==> x in rows {
      assert x in ranked <==> x in multiset(ranked);
      assert x in rows <==> x in multiset(rows);
    }
  }

  /** The line's rank names its place in the sorted list. */
  predicate Placed(row: TeacherRow, ranked: seq<TeacherRow>)
    reads row
  {
    row.rank.Some? && 1 <= row.rank.value <= |ranked| && ranked[row.rank.value - 1] == row
  }

  /** Once the sorted lines are ranked 1, 2, ..., every line of the unsorted list,
      being one of them, carries the rank of its place in the sorted list. */
  lemma RankedHoldsRows(rows: seq<TeacherRow>, ranked: seq<TeacherRow>)
    requires multiset(ranked) == multiset(rows)
    requires forall k :: 0 <= k < |ranked| ==> ranked[k].rank == Some(k + 1)
    ensures forall j :: 0 <= j < |rows| ==> Placed(rows[j], ranked)
  {
    forall j | 0 <= j < |rows| ensures Placed(rows[j], ranked) {
      assert rows[j] in multiset(rows);
      assert rows[j] in ranked;
      var k :| 0 <= k < |ranked| && ranked[k] == rows[j];
    }
  }

  /** `prepare_teacher_data`. */
  method PrepareTeacherData(sub: Option<Subject>, stores: Stores, students: map<string, Student>,
                            roster: seq<Row>) returns (r: Result<TeacherData>)
    ensures r.Err? <==> sub.None? || !TableKnown(stores.Of(sub.value), students)
    ensures sub.None? ==> r == Err(NoSubject)
    ensures sub.Some? && !TableKnown(stores.Of(sub.value), students) ==>
      r == Err(UnknownIdentifier(FirstUnknown(stores.Of(sub.value), students)))
    ensures r.Ok? ==> sub.Some? && TableKnown(stores.Of(sub.value), students)
    ensures r.Ok? ==> (var t := stores.Of(sub.value); var rows := r.value.rows;
      |rows| == |t| && Distinct(rows) &&
      forall i :: 0 <= i < |t| ==> (fresh(rows[i]) &&
        rows[i].grn == t[i].grn && rows[i].scores == students[t[i].grn].Scores(sub.value) &&
        rows[i].average == SubjectAverage(students[t[i].grn], sub.value) &&
        rows[i].name == NameOf(roster, t[i].grn)))
    ensures r.Ok? ==> r.value.ranked == SortDesc(r.value.rows, AverageOf)
    ensures r.Ok? ==> forall k :: 0 <= k < |r.value.ranked| ==> r.value.ranked[k].rank == Some(k + 1)
    ensures r.Ok? ==> forall j :: 0 <= j < |r.value.rows| ==> Placed(r.value.rows[j], r.value.ranked)
  {
    if sub.None? {
      return Err(NoSubject);
    }
    var subject := sub.value;
    var t := stores.Of(subject);
    var built := BuildRows(t, students, subject);
    if built.Err? {
      return Err(built.error);
    }
    var rows := built.value;
    FillNames(rows, roster);
    var ranked := SortDesc(rows, AverageOf);
    SortDescDistinct(rows, AverageOf);
    SameElements(rows, ranked);
    AssignRanks(ranked);
    RankedHoldsRows(rows, ranked);
    return Ok(TeacherData(rows, ranked));
  }
}
