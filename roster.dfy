/** Rows of the user roster (`users.csv`) and the helpers that read them:
    which subjects a row is flagged for, which subject a teacher teaches,
    and the identifier an administrator gives a new student. */
module Roster {
  import opened Common

  /** One roster row. `grn` is empty for teachers; each flag is true exactly
      when the row's cell for that subject reads "1". */
  datatype Row = Row(grn: string, name: string,
                     math: bool, phy: bool, chem: bool, bio: bool, cs: bool)
  {
    /** `row[sub] == "1"`. */
    predicate Flag(sub: Subject)
    {
      match sub
      case Math => math
      case Phy => phy
      case Chem => chem
      case Bio => bio
      case Cs => cs
    }
  }

  /** The subjects of `subs` whose flag is set, in the order of `subs`. */
  function Flagged(row: Row, subs: seq<Subject>): seq<Subject>
  {
    if subs == [] then []
    else (if row.Flag(subs[0]) then [subs[0]] else []) + Flagged(row, subs[1..])
  }

  /** `get_enrolled_subjects`: the flagged subjects, in the fixed subject order. */
  function EnrolledSubjects(row: Row): seq<Subject>
  {
    Flagged(row, Subjects)
  }

  /** Filtering keeps exactly the flagged members, and only ones at or after
      position `k` of the fixed order when `subs` is the order from `k` on. */
  lemma {:induction false} FlaggedMembers(row: Row, k: nat)
    requires k <= |Subjects|
    ensures forall s :: s in Flagged(row, Subjects[k..]) <==> s in Subjects[k..] && row.Flag(s)
    ensures forall i, j :: 0 <= i < j < |Flagged(row, Subjects[k..])| ==>
      Flagged(row, Subjects[k..])[i].Index() < Flagged(row, Subjects[k..])[j].Index()
    ensures forall i :: 0 <= i < |Flagged(row, Subjects[k..])| ==> Flagged(row, Subjects[k..])[i].Index() >= k
    decreases |Subjects| - k
  {
    if k < |Subjects| {
      FlaggedMembers(row, k + 1);
      assert Subjects[k..][1..] == Subjects[k + 1..];
      assert Subjects[k].Index() == k;
      forall s | s in Subjects[k..] ensures s == Subjects[k] || s in Subjects[k + 1..] {
        assert s.Index() >= k;
      }
    }
  }

  /** The enrolled subjects are exactly the flagged ones, each once, in the fixed order. */
  lemma EnrolledSubjectsMeaning(row: Row)
    ensures forall s :: s in EnrolledSubjects(row) <==> row.Flag(s)
    ensures forall i, j :: 0 <= i < j < |EnrolledSubjects(row)| ==>
      EnrolledSubjects(row)[i].Index() < EnrolledSubjects(row)[j].Index()
  {
    FlaggedMembers(row, 0);
    assert Subjects[0..] == Subjects;
    forall s: Subject ensures s in Subjects {
      assert Subjects[s.Index()] == s;
    }
  }

  /** The first flagged subject in the fixed order, if any. */
  function FirstFlag(row: Row): (r: Option<Subject>)
    ensures r.Some? ==> row.Flag(r.value) && forall s: Subject :: s.Index() < r.value.Index() ==> !row.Flag(s)
    ensures r.None? ==> forall s: Subject :: !row.Flag(s)
  {
    if row.math then Some(Math)
    else if row.phy then Some(Phy)
    else if row.chem then Some(Chem)
    else if row.bio then Some(Bio)
    else if row.cs then Some(Cs)
    else None
  }

  /** The last flagged subject in the fixed order, if any: what a loop over the
      five subjects that keeps overwriting its variable is left holding. */
  function LastFlag(row: Row): (r: Option<Subject>)
    ensures r.Some? ==> row.Flag(r.value) && forall s: Subject :: s.Index() > r.value.Index() ==> !row.Flag(s)
    ensures r.None? ==> forall s: Subject :: !row.Flag(s)
  {
    if row.cs then Some(Cs)
    else if row.bio then Some(Bio)
    else if row.chem then Some(Chem)
    else if row.phy then Some(Phy)
    else if row.math then Some(Math)
    else None
  }

  /** The roster rows with a GRN and the subject's flag set, in roster order. */
  function Enrolled(roster: seq<Row>, sub: Subject): seq<Row>
  {
    if roster == [] then []
    else
      var init := roster[..|roster| - 1];
      var last := roster[|roster| - 1];
      Enrolled(init, sub) + (if last.grn != "" && last.Flag(sub) then [last] else [])
  }

  /** The enrolled rows are exactly the student rows flagged for the subject. */
  lemma {:induction false} EnrolledMembers(roster: seq<Row>, sub: Subject)
    ensures forall x :: x in Enrolled(roster, sub) <==> x in roster && x.grn != "" && x.Flag(sub)
  {
    if roster != [] {
      var init := roster[..|roster| - 1];
      assert roster == init + [roster[|roster| - 1]];
      EnrolledMembers(init, sub);
    }
  }

  /** Exactly one subject flag is set, as on a well-formed teacher row. */
  predicate SingleFlag(row: Row, sub: Subject)
  {
    row.Flag(sub) && forall t: Subject :: t != sub ==> !row.Flag(t)
  }

  /** On a row with one flag, the first and the last flagged subject agree, so the
      two ways the program reads a teacher's subject give the same answer. */
  lemma SingleFlagFirstIsLast(row: Row, sub: Subject)
    requires SingleFlag(row, sub)
    ensures FirstFlag(row) == Some(sub) && LastFlag(row) == Some(sub)
  {
  }

  /** `get_teacher_subject`: the first flagged subject of the first row with this
      name that has any flag; `None` when no such row exists. */
  method TeacherSubject(name: string, roster: seq<Row>) returns (r: Option<Subject>)
    ensures r.Some? ==> exists i :: (0 <= i < |roster| && roster[i].name == name &&
      FirstFlag(roster[i]) == r &&
      forall k :: 0 <= k < i && roster[k].name == name ==> FirstFlag(roster[k]).None?)
    ensures r.None? <==> forall i :: 0 <= i < |roster| && roster[i].name == name ==> FirstFlag(roster[i]).None?
  {
    var i := 0;
    while i < |roster|
      invariant 0 <= i <= |roster|
      invariant forall k :: 0 <= k < i && roster[k].name == name ==> FirstFlag(roster[k]).None?
    {
      if roster[i].name == name {
        var j := 0;
        while j < |Subjects|
          invariant 0 <= j <= |Subjects|
          invariant forall m :: 0 <= m < j ==> !roster[i].Flag(Subjects[m])
        {
          if roster[i].Flag(Subjects[j]) {
            assert FirstFlag(roster[i]) == Some(Subjects[j]);
            return Some(Subjects[j]);
          }
          j := j + 1;
        }
        assert forall s: Subject :: !roster[i].Flag(s) by {
          forall s: Subject ensures !roster[i].Flag(s) {
            assert Subjects[s.Index()] == s;
          }
        }
      }
      i := i + 1;
    }
    return None;
  }

  // ---- New student identifiers --------------------------------------------

  predicate IsDigit(c: char)
  {
    '0' <= c <= '9'
  }

  /** A GRN that `int()` reads as a plain decimal numeral. */
  predicate IsNumeral(s: string)
  {
    |s| > 0 && forall i :: 0 <= i < |s| ==> IsDigit(s[i])
  }

  /** The value of a string of decimal digits (leading zeros allowed). */
  function NumeralValue(s: string): nat
    requires forall i :: 0 <= i < |s| ==> IsDigit(s[i])
  {
    if s == [] then 0
    else
      assert IsDigit(s[|s| - 1]);
      NumeralValue(s[..|s| - 1]) * 10 + (s[|s| - 1] as int - '0' as int)
  }

  /** `str(n)` for a natural number: its decimal digits, without leading zeros. */
  function Numeral(n: nat): (s: string)
    ensures IsNumeral(s)
  {
    (if n < 10 then "" else Numeral(n / 10)) + [('0' as int + n % 10) as char]
  }

  /** Reading back what `str` wrote gives the number again. */
  lemma {:induction false} NumeralRoundTrip(n: nat)
    ensures NumeralValue(Numeral(n)) == n
  {
    var s := Numeral(n);
    var prefix := if n < 10 then "" else Numeral(n / 10);
    assert s[..|s| - 1] == prefix;
    if n >= 10 {
      NumeralRoundTrip(n / 10);
    }
  }

  /** Every student row carries a numeric GRN, so `int(grn)` never raises. */
  predicate NumericGrns(roster: seq<Row>)
  {
    forall i :: 0 <= i < |roster| && roster[i].grn != "" ==> IsNumeral(roster[i].grn)
  }

  /** The largest GRN of the roster, 0 when it has no student row. */
  function MaxGrn(roster: seq<Row>): (m: nat)
    requires NumericGrns(roster)
    ensures forall i :: 0 <= i < |roster| && roster[i].grn != "" ==> NumeralValue(roster[i].grn) <= m
    ensures m == 0 || exists i :: 0 <= i < |roster| && roster[i].grn != "" && NumeralValue(roster[i].grn) == m
  {
    if roster == [] then 0
    else
      var init := roster[..|roster| - 1];
      var last := roster[|roster| - 1];
      assert forall i :: 0 <= i < |init| ==> init[i] == roster[i];
      var m := MaxGrn(init);
      if last.grn != "" && NumeralValue(last.grn) > m then NumeralValue(last.grn) else m
  }

  /** The new GRN exceeds every existing GRN, so no roster row already has it. */
  lemma NewGrnIsFresh(roster: seq<Row>)
    requires NumericGrns(roster)
    ensures forall i :: 0 <= i < |roster| && roster[i].grn != "" ==>
      NumeralValue(roster[i].grn) < NumeralValue(Numeral(MaxGrn(roster) + 1))
    ensures forall i :: 0 <= i < |roster| ==> roster[i].grn != Numeral(MaxGrn(roster) + 1)
  {
    var m := MaxGrn(roster);
    NumeralRoundTrip(m + 1);
    forall i | 0 <= i < |roster| ensures roster[i].grn != Numeral(m + 1) {
      if roster[i].grn != "" {
        assert NumeralValue(roster[i].grn) <= m;
      }
    }
  }

  /** One more roster row raises the running maximum to that row's GRN when it is larger. */
  lemma MaxGrnStep(roster: seq<Row>, i: nat)
    requires i < |roster| && NumericGrns(roster[..i])
    requires roster[i].grn != "" ==> IsNumeral(roster[i].grn)
    ensures NumericGrns(roster[..i + 1])
    ensures MaxGrn(roster[..i + 1]) ==
      if roster[i].grn != "" && NumeralValue(roster[i].grn) > MaxGrn(roster[..i])
      then NumeralValue(roster[i].grn) else MaxGrn(roster[..i])
  {
    var prefix := roster[..i + 1];
    assert prefix[..i] == roster[..i] && prefix[i] == roster[i];
    forall k | 0 <= k < |prefix| && prefix[k].grn != "" ensures IsNumeral(prefix[k].grn) {
      if k < i {
        assert prefix[k] == roster[..i][k];
      }
    }
  }

  /** The GRN arithmetic of `admin_create_student_account`: one more than the
      largest existing GRN, written in decimal. `int()` on a GRN that is not a
      numeral raises, and the account is not created. */
  method NewGrn(roster: seq<Row>) returns (r: Result<string>)
    ensures r.Err? <==> !NumericGrns(roster)
    ensures r.Err? ==> (r.error.MalformedGrn? &&
      exists i :: 0 <= i < |roster| && roster[i].grn == r.error.grn && roster[i].grn != "" && !IsNumeral(roster[i].grn))
    ensures r.Ok? ==> NumericGrns(roster) && r.value == Numeral(MaxGrn(roster) + 1)
    ensures r.Ok? ==> IsNumeral(r.value) && forall i :: 0 <= i < |roster| ==> roster[i].grn != r.value
  {
    var maxGrn: nat := 0;
    for i := 0 to |roster|
      invariant NumericGrns(roster[..i])
      invariant maxGrn == MaxGrn(roster[..i])
    {
      var grn := roster[i].grn;
      if grn != "" && !IsNumeral(grn) {
        return Err(MalformedGrn(grn));
      }
      MaxGrnStep(roster, i);
      if grn != "" {
        var value := NumeralValue(grn);
        maxGrn := if maxGrn > value then maxGrn else value;
      }
    }
    assert roster[..|roster|] == roster;
    NewGrnIsFresh(roster);
    return Ok(Numeral(maxGrn + 1));
  }
}
