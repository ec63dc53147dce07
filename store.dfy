/** The data the scoring code reads: the five subject dicts of GRN -> test
    slots, and the GRN -> Student map `load_students` builds from them. The
    module-level globals of project.py are parameters here. */
module Store {
  import opened Common
  import opened StudentRecord
  import opened Roster


  /** One row of a subject's score file: a GRN and its test slots. */
  datatype Entry = Entry(grn: string, scores: seq<Score>)

  /** A subject's `<sub>_data` dict, its entries in insertion order. */
  type Table = seq<Entry>

  /** The five subject dicts `math_data` ... `cs_data`. */
  datatype Stores = Stores(math: Table, phy: Table, chem: Table, bio: Table, cs: Table)
  {
    /** `{"math": math_data, ...}[sub]`. */
    function Of(sub: Subject): Table
    {
      match sub
      case Math => math
      case Phy => phy
      case Chem => chem
      case Bio => bio
      case Cs => cs
    }
  }

  /** A dict holds each key once. */
  ghost predicate DistinctKeys(t: Table)
  {
    forall i, j :: 0 <= i < j < |t| ==> t[i].grn != t[j].grn
  }

  /** `data.get(grn, [])`. */
  function Get(t: Table, grn: string): (r: seq<Score>)
    ensures (forall i :: 0 <= i < |t| ==> t[i].grn != grn) ==> r == []
    ensures DistinctKeys(t) ==> forall i :: 0 <= i < |t| && t[i].grn == grn ==> r == t[i].scores
  {
    if t == [] then []
    else if t[0].grn == grn then t[0].scores
    else
      assert DistinctKeys(t) ==> DistinctKeys(t[1..]);
      Get(t[1..], grn)
  }

  /** The Student that `load_students` builds for one GRN: each subject's list
      is that GRN's entry in the subject's dict, or empty. */
  function StudentFor(stores: Stores, grn: string): Student
  {
    Student((sub: Subject) => Get(stores.Of(sub), grn))
  }

  /** A subject dict without the GRN gives it an empty list; a dict with the
      GRN (as a key, once) gives it that entry's slots. */
  lemma StudentForScores(stores: Stores, grn: string, sub: Subject)
    ensures (forall i :: 0 <= i < |stores.Of(sub)| ==> stores.Of(sub)[i].grn != grn) ==>
      StudentFor(stores, grn).Scores(sub) == []
    ensures forall i :: (DistinctKeys(stores.Of(sub)) && 0 <= i < |stores.Of(sub)| &&
      stores.Of(sub)[i].grn == grn) ==> StudentFor(stores, grn).Scores(sub) == stores.Of(sub)[i].scores
  {
  }

  /** The non-empty GRNs of the roster. */
  function RosterGrns(roster: seq<Row>): (s: set<string>)
    ensures forall g :: g in s <==> g != "" && exists i :: 0 <= i < |roster| && roster[i].grn == g
  {
    if roster == [] then {}
    else
      var init := roster[..|roster| - 1];
      var last := roster[|roster| - 1];
      assert roster == init + [last];
      RosterGrns(init) + (if last.grn != "" then {last.grn} else {})
  }

  /** `load_students`: one Student per roster row with a GRN, built from that
      GRN's lists in the five subject dicts (empty where it has none). */
  method LoadStudents(stores: Stores, roster: seq<Row>) returns (students: map<string, Student>)
    ensures students.Keys == RosterGrns(roster)
    ensures forall g :: g in students ==> students[g] == StudentFor(stores, g)
  {
    students := map[];
    for i := 0 to |roster|
      invariant students.Keys == RosterGrns(roster[..i])
      invariant forall g :: g in students ==> students[g] == StudentFor(stores, g)
    {
      assert roster[..i + 1][..i] == roster[..i];
      if roster[i].grn != "" {
        students := students[roster[i].grn := StudentFor(stores, roster[i].grn)];
      }
    }
    assert roster[..|roster|] == roster;
  }

  /** Every roster row with a GRN has a Student: `students[grn]` never raises. */
  predicate RosterKnown(roster: seq<Row>, students: map<string, Student>)
  {
    forall i :: 0 <= i < |roster| && roster[i].grn != "" ==> roster[i].grn in students
  }

  /** The map `load_students` builds serves every lookup the ranking code
      makes through the roster. */
  lemma LoadedRosterKnown(roster: seq<Row>, students: map<string, Student>)
    requires students.Keys == RosterGrns(roster)
    ensures RosterKnown(roster, students)
    ensures forall sub: Subject :: Known(Enrolled(roster, sub), students)
  {
    forall i | 0 <= i < |roster| && roster[i].grn != "" ensures roster[i].grn in students {
      assert roster[i].grn in RosterGrns(roster);
    }
    forall sub: Subject ensures Known(Enrolled(roster, sub), students) {
      var e := Enrolled(roster, sub);
      EnrolledMembers(roster, sub);
      forall k | 0 <= k < |e| ensures e[k].grn in students {
        assert e[k] in e;
      }
    }
  }

  /** Every key of a subject dict has a Student. */
  predicate TableKnown(t: Table, students: map<string, Student>)
  {
    forall i :: 0 <= i < |t| ==> t[i].grn in students
  }

  /** The first key of a subject dict that has no Student: where the loop raises. */
  function FirstUnknown(t: Table, students: map<string, Student>): (g: string)
    requires !TableKnown(t, students)
    ensures g !in students && exists i :: 0 <= i < |t| && t[i].grn == g
  {
    if t[0].grn !in students then t[0].grn
    else
      assert !TableKnown(t[1..], students) by {
        var i :| 0 <= i < |t| && t[i].grn !in students;
        assert t[1..][i - 1] == t[i];
      }
      FirstUnknown(t[1..], students)
  }

  lemma {:induction false} FirstUnknownAt(t: Table, students: map<string, Student>, i: nat)
    requires i < |t| && TableKnown(t[..i], students) && t[i].grn !in students
    ensures !TableKnown(t, students) && FirstUnknown(t, students) == t[i].grn
  {
    if i > 0 {
      assert t[0] == t[..i][0];
      assert t[1..][..i - 1] == t[..i][1..];
      FirstUnknownAt(t[1..], students, i - 1);
    }
  }

  /** One subject average per key of the dict, in the dict's order. */
  function TableAverages(t: Table, students: map<string, Student>, sub: Subject): (r: seq<real>)
    requires TableKnown(t, students)
    ensures |r| == |t|
  {
    seq(|t|, i requires 0 <= i < |t| => SubjectAverage(students[t[i].grn], sub))
  }

  /** `[students[grn].<sub>_average() for grn in data]`, raising at the first
      key with no Student. */
  function SubjectAveragesOver(t: Table, students: map<string, Student>, sub: Subject): Result<seq<real>>
  {
    if TableKnown(t, students) then Ok(TableAverages(t, students, sub))
    else Err(UnknownIdentifier(FirstUnknown(t, students)))
  }

  /** The loop over a subject dict's keys that collects its students' averages. */
  method CollectSubjectAverages(t: Table, students: map<string, Student>, sub: Subject)
    returns (r: Result<seq<real>>)
    ensures r == SubjectAveragesOver(t, students, sub)
  {
    var averages: seq<real> := [];
    for i := 0 to |t|
      invariant TableKnown(t[..i], students)
      invariant averages == TableAverages(t[..i], students, sub)
    {
      if t[i].grn !in students {
        FirstUnknownAt(t, students, i);
        return Err(UnknownIdentifier(t[i].grn));
      }
      ghost var prefix := t[..i + 1];
      assert forall j :: 0 <= j < i ==> t[..i][j] == t[j] == prefix[j];
      averages := averages + [SubjectAverage(students[t[i].grn], sub)];
      assert TableKnown(prefix, students);
      assert averages == TableAverages(prefix, students, sub) by {
        forall j | 0 <= j <= i ensures averages[j] == TableAverages(prefix, students, sub)[j] {
          if j < i {
            assert averages[j] == TableAverages(t[..i], students, sub)[j];
          }
        }
      }
    }
    assert t[..|t|] == t;
    return Ok(averages);
  }

  /** Every row has a Student. */
  predicate Known(rows: seq<Row>, students: map<string, Student>)
  {
    forall k :: 0 <= k < |rows| ==> rows[k].grn in students
  }
}
