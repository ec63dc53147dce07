/** Types shared by the whole gradebook model: optional values, the error
    conditions the Python code raises, the five fixed subjects, and the
    sum and mean of a list of reals with their bounds. */
module Common {

  datatype Option<+T> = None | Some(value: T)

  /** The ways the scoring code stops with an exception instead of a value. */
  datatype Error =
    | UnknownIdentifier(grn: string)   // `students[grn]` raises KeyError
    | NoStudentsInSubject              // `sum(xs) / len(xs)` on an empty list
    | UnboundTeacherSubject            // a teacher row read before any subject flag was seen
    | MalformedGrn(grn: string)        // `int(grn)` raises ValueError
    | NoSubject                        // the subject-dict lookup with `None` raises KeyError

  datatype Result<+T> = Ok(value: T) | Err(error: Error)

  /** The five subjects, in the order the program always lists them. */
  datatype Subject = Math | Phy | Chem | Bio | Cs
  {
    function Index(): (i: nat)
      ensures i < 5 && Subjects[i] == this
    {
      match this
      case Math => 0
      case Phy => 1
      case Chem => 2
      case Bio => 3
      case Cs => 4
    }
  }

  const Subjects: seq<Subject> := [Math, Phy, Chem, Bio, Cs]

  /** Left-to-right sum, as Python's `sum` and the `+=` loops compute it. */
  function Sum(xs: seq<real>): real
  {
    if xs == [] then 0.0 else Sum(xs[..|xs| - 1]) + xs[|xs| - 1]
  }

  /** `len(xs)`, as the number a float division sees; recursive, like `Sum`, so
      that a mean stays a quotient of two reals. */
  function Count(xs: seq<real>): real
  {
    if xs == [] then 0.0 else Count(xs[..|xs| - 1]) + 1.0
  }

  lemma {:induction false} CountIsLength(xs: seq<real>)
    ensures Count(xs) == |xs| as real
  {
    if xs != [] {
      CountIsLength(xs[..|xs| - 1]);
    }
  }

  /** `sum(xs) / len(xs)`. */
  function Mean(xs: seq<real>): real
    requires Count(xs) != 0.0
  {
    Sum(xs) / Count(xs)
  }

  /** Every element within [lo, hi] puts the sum within [n*lo, n*hi]. */
  lemma {:induction false} SumBounds(xs: seq<real>, lo: real, hi: real)
    requires forall i :: 0 <= i < |xs| ==> lo <= xs[i] <= hi
    ensures |xs| as real * lo <= Sum(xs) <= |xs| as real * hi
  {
    if xs != [] {
      var init := xs[..|xs| - 1];
      assert forall i :: 0 <= i < |init| ==> init[i] == xs[i];
      SumBounds(init, lo, hi);
      var m := |init| as real;
      assert |xs| as real * lo == m * lo + lo;
      assert |xs| as real * hi == m * hi + hi;
    }
  }

  /** A sum of strictly positive numbers is positive as soon as there is one. */
  lemma {:induction false} SumPositive(xs: seq<real>)
    requires |xs| > 0
    requires forall i :: 0 <= i < |xs| ==> xs[i] > 0.0
    ensures Sum(xs) > 0.0
  {
    var init := xs[..|xs| - 1];
    if init != [] {
      assert forall i :: 0 <= i < |init| ==> init[i] == xs[i];
      SumPositive(init);
    }
  }

  /** A mean lies between any bounds of its elements. */
  lemma MeanBounds(xs: seq<real>, lo: real, hi: real)
    requires |xs| > 0
    requires forall i :: 0 <= i < |xs| ==> lo <= xs[i] <= hi
    ensures Count(xs) == |xs| as real && lo <= Mean(xs) <= hi
  {
    SumBounds(xs, lo, hi);
    CountIsLength(xs);
    QuotientBounds(Sum(xs), |xs| as real, lo, hi);
  }

  /** Dividing a total that lies within [n*lo, n*hi] by n > 0. */
  lemma QuotientBounds(total: real, n: real, lo: real, hi: real)
    requires n > 0.0 && n * lo <= total <= n * hi
    ensures lo <= total / n <= hi
  {
  }

  /** The mean of strictly positive numbers is strictly positive. */
  lemma MeanPositive(xs: seq<real>)
    requires |xs| > 0
    requires forall i :: 0 <= i < |xs| ==> xs[i] > 0.0
    ensures Count(xs) == |xs| as real && Mean(xs) > 0.0
  {
    SumPositive(xs);
    CountIsLength(xs);
  }
}
