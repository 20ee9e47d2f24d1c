/** Row-labelled numeric tables over the reals: the input frames of the
    comparison routines, the pairwise result tables they build, the error
    outcomes the routines can raise, and the arithmetic on vectors that all
    three routines share. */
module Tables {

  /** A row label: a default positional label (what pandas gives a raw
      array) or a name chosen by the caller. */
  datatype Label = Index(pos: nat) | Name(name: string)

  /** The failures the routines raise as written. */
  datatype Error =
    | UnboundCounts   // get_entropy handed an ndarray: `counts` is never bound
    | EmptyRowList    // get_entropy_all handed an empty list: no maximum row length
    | NotAligned      // DataFrame.dot on frames whose columns do not line up

  datatype Result<T> = Success(value: T) | Failure(error: Error)

  /** A frame: one label per row and rows of a common width. */
  datatype Frame = Frame(labels: seq<Label>, rows: seq<seq<real>>, width: nat)

  predicate WellFormed(f: Frame)
  {
    |f.labels| == |f.rows| &&
    forall i :: 0 <= i < |f.rows| ==> |f.rows[i]| == f.width
  }

  /** A pairwise result: rows labelled by one frame, columns by another. */
  datatype Table<T> = Table(rowLabels: seq<Label>, colLabels: seq<Label>, cells: seq<seq<T>>)

  predicate HasShape<T>(t: Table<T>, n: nat, m: nat)
  {
    |t.rowLabels| == n && |t.colLabels| == m && |t.cells| == n &&
    forall i :: 0 <= i < n ==> |t.cells[i]| == m
  }

  /** pd.DataFrame(matrix) for a raw 2-D array of the given width: the rows
      are kept and labelled 0, 1, ..., n-1. */
  function FromArray(rows: seq<seq<real>>, width: nat): (f: Frame)
    requires forall i :: 0 <= i < |rows| ==> |rows[i]| == width
    ensures WellFormed(f) && f.rows == rows && f.width == width
    ensures forall i :: 0 <= i < |rows| ==> f.labels[i] == Index(i)
  {
    Frame(seq(|rows|, i requires 0 <= i => Index(i)), rows, width)
  }

  predicate NonNeg(s: seq<real>)
  {
    forall i :: 0 <= i < |s| ==> 0.0 <= s[i]
  }

  predicate AllZero(s: seq<real>)
  {
    forall i :: 0 <= i < |s| ==> s[i] == 0.0
  }

  function Zeros(k: nat): seq<real>
  {
    seq(k, _ => 0.0)
  }

  /** Every entry multiplied by k. */
  function Scale(k: real, s: seq<real>): seq<real>
  {
    seq(|s|, i requires 0 <= i < |s| => k * s[i])
  }

  /** The sum of a vector, accumulated from the left as a loop does. */
  function Sum(s: seq<real>): real
  {
    if s == [] then 0.0 else Sum(s[..|s| - 1]) + s[|s| - 1]
  }

  lemma {:induction false} SumAppend(s: seq<real>, t: seq<real>)
    ensures Sum(s + t) == Sum(s) + Sum(t)
  {
    if t != [] {
      assert (s + t)[..|s + t| - 1] == s + t[..|t| - 1];
      SumAppend(s, t[..|t| - 1]);
    } else {
      assert s + t == s;
    }
  }

  lemma {:induction false} SumNonNeg(s: seq<real>)
    requires NonNeg(s)
    ensures 0.0 <= Sum(s)
  {
    if s != [] {
      SumNonNeg(s[..|s| - 1]);
    }
  }

  /** A non-negative vector sums to zero exactly when every entry is zero. */
  lemma {:induction false} SumZeroIffAllZero(s: seq<real>)
    requires NonNeg(s)
    ensures Sum(s) == 0.0 <==> AllZero(s)
  {
    if s != [] {
      var init := s[..|s| - 1];
      SumNonNeg(init);
      SumZeroIffAllZero(init);
      if AllZero(s) {
        assert AllZero(init);
      }
    }
  }

  lemma {:induction false} SumScale(k: real, s: seq<real>)
    ensures Sum(Scale(k, s)) == k * Sum(s)
  {
    if s != [] {
      var init := s[..|s| - 1];
      assert forall i :: 0 <= i < |init| ==> Scale(k, s)[i] == Scale(k, init)[i];
      assert Scale(k, s)[..|s| - 1] == Scale(k, init);
      SumScale(k, s[..|s| - 1]);
    }
  }

  /** (k * x) / (k * y) == x / y for non-zero k and y. */
  lemma DivCancel(k: real, x: real, y: real)
    requires k != 0.0 && y != 0.0
    ensures (k * x) / (k * y) == x / y
  {
    assert (k * x) / (k * y) * (k * y) == k * x;
    assert (x / y) * (k * y) == k * x;
  }
}
