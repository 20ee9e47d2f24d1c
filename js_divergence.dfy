/** Kullback-Leibler and Jensen-Shannon divergence: the pairwise definition
    (get_KL_divergence, get_JS_divergence) and the broadcast table of every
    pair of rows of two frames (get_js_divergence_at_once). Both use the
    natural logarithm, a parameter `ln`; the only fact about it any proof
    uses is ln(1) == 0. */
module JSDivergence {
  import opened Tables
  import opened ExtReal

  /** q is non-zero wherever p is: every term p[i] * ln(p[i] / q[i]) that
      the sum keeps is defined. */
  predicate Dominated(p: seq<real>, q: seq<real>)
  {
    |p| == |q| && forall i :: 0 <= i < |p| ==> p[i] != 0.0 ==> q[i] != 0.0
  }

  // ---------------------------------------------------------------------
  // The pairwise definition as written
  // ---------------------------------------------------------------------

  /** The terms of the KL sum: p[i] times ln of p[i] over q[i], one per index
      whose p entry is not zero, in index order. */
  function KLTerms(ln: real -> real, p: seq<real>, q: seq<real>): seq<real>
    requires Dominated(p, q)
  {
    if p == [] then []
    else
      var k := |p| - 1;
      KLTerms(ln, p[..k], q[..k]) + (if p[k] != 0.0 then [p[k] * ln(p[k] / q[k])] else [])
  }

  /** get_KL_divergence: the sum of the kept terms, which is the positional
      sum with the zero terms of p skipped. */
  function KL(ln: real -> real, p: seq<real>, q: seq<real>): (r: real)
    requires Dominated(p, q)
    ensures r == KLSkip(ln, p, q)
  {
    KLIsSkipSum(ln, p, q);
    Sum(KLTerms(ln, p, q))
  }

  /** The midpoint of p and q, element by element: each entry lies between
      the two entries it comes from, at equal distance from both. */
  function Mid(p: seq<real>, q: seq<real>): (m: seq<real>)
    requires |p| == |q|
    ensures |m| == |p|
    ensures forall i :: 0 <= i < |m| ==> (p[i] <= m[i] <= q[i]) || (q[i] <= m[i] <= p[i])
    ensures forall i :: 0 <= i < |m| ==> m[i] - p[i] == q[i] - m[i]
  {
    seq(|p|, i requires 0 <= i < |p| => (p[i] + q[i]) / 2.0)
  }

  /** The midpoint of two non-negative vectors dominates both. */
  lemma MidDominates(p: seq<real>, q: seq<real>)
    requires |p| == |q| && NonNeg(p) && NonNeg(q)
    ensures Dominated(p, Mid(p, q)) && Dominated(q, Mid(p, q))
  {
  }

  /** get_JS_divergence: the mean of the divergences of p and of q from
      their midpoint, each a positional sum with its zero terms skipped. */
  function JS(ln: real -> real, p: seq<real>, q: seq<real>): (r: real)
    requires |p| == |q| && NonNeg(p) && NonNeg(q)
    ensures Dominated(p, Mid(p, q)) && Dominated(q, Mid(p, q))
    ensures r == 0.5 * KLSkip(ln, p, Mid(p, q)) + 0.5 * KLSkip(ln, q, Mid(p, q))
  {
    MidDominates(p, q);
    0.5 * KL(ln, p, Mid(p, q)) + 0.5 * KL(ln, q, Mid(p, q))
  }

  // ---------------------------------------------------------------------
  // Reference: a positional sum whose zero terms are skipped
  // ---------------------------------------------------------------------

  /** The term of index i: nothing when p[i] is zero. */
  function SkipTerm(ln: real -> real, x: real, y: real): real
    requires x != 0.0 ==> y != 0.0
  {
    if x == 0.0 then 0.0 else x * ln(x / y)
  }

  /** sum over all i of SkipTerm(p[i], q[i]). */
  function KLSkip(ln: real -> real, p: seq<real>, q: seq<real>): real
    requires Dominated(p, q)
  {
    if p == [] then 0.0
    else
      var k := |p| - 1;
      KLSkip(ln, p[..k], q[..k]) + SkipTerm(ln, p[k], q[k])
  }

  /** The filtered comprehension of get_KL_divergence sums exactly the
      terms with p[i] != 0, which is the positional sum with those zero
      terms skipped. */
  lemma {:induction false} KLIsSkipSum(ln: real -> real, p: seq<real>, q: seq<real>)
    requires Dominated(p, q)
    ensures Sum(KLTerms(ln, p, q)) == KLSkip(ln, p, q)
  {
    if p != [] {
      var k := |p| - 1;
      KLIsSkipSum(ln, p[..k], q[..k]);
      var tail := if p[k] != 0.0 then [p[k] * ln(p[k] / q[k])] else [];
      SumAppend(KLTerms(ln, p[..k], q[..k]), tail);
      assert tail != [] ==> Sum(tail) == Sum([]) + tail[0];
    }
  }

  // ---------------------------------------------------------------------
  // Properties of the pairwise definition
  // ---------------------------------------------------------------------

  lemma MidSymmetric(p: seq<real>, q: seq<real>)
    requires |p| == |q|
    ensures Mid(p, q) == Mid(q, p)
  {
    assert forall i :: 0 <= i < |p| ==> Mid(p, q)[i] == Mid(q, p)[i];
  }

  /** JS(p, q) == JS(q, p): the midpoint is symmetric and the two halves
      commute. */
  lemma JSSymmetric(ln: real -> real, p: seq<real>, q: seq<real>)
    requires |p| == |q| && NonNeg(p) && NonNeg(q)
    ensures JS(ln, p, q) == JS(ln, q, p)
  {
    MidSymmetric(p, q);
  }

  lemma {:induction false} KLSkipSelf(ln: real -> real, p: seq<real>)
    requires ln(1.0) == 0.0
    ensures Dominated(p, p) && KLSkip(ln, p, p) == 0.0
  {
    if p != [] {
      var k := |p| - 1;
      KLSkipSelf(ln, p[..k]);
      if p[k] != 0.0 {
        assert p[k] / p[k] == 1.0;
      }
    }
  }

  /** JS(p, p) == 0: the midpoint is p itself and every kept term is
      p[i] * ln(1). */
  lemma JSSelfIsZero(ln: real -> real, p: seq<real>)
    requires ln(1.0) == 0.0
    requires NonNeg(p)
    ensures JS(ln, p, p) == 0.0
  {
    assert forall i :: 0 <= i < |p| ==> Mid(p, p)[i] == p[i];
    assert Mid(p, p) == p;
    KLSkipSelf(ln, p);
  }

  /** [1, 0] and [0, 1] have disjoint supports: their divergence is ln 2. */
  lemma JSOfDisjointPair(ln: real -> real)
    ensures JS(ln, [1.0, 0.0], [0.0, 1.0]) == ln(2.0)
  {
    var p, q := [1.0, 0.0], [0.0, 1.0];
    var m := Mid(p, q);
    assert m == [0.5, 0.5];
    MidDominates(p, q);
    assert p[..1] == [1.0] && p[..1][..0] == [];
    assert q[..1] == [0.0] && q[..1][..0] == [];
    assert m[..1] == [0.5] && m[..1][..0] == [];
    assert 1.0 / 0.5 == 2.0;
    assert SkipTerm(ln, 1.0, 0.5) == ln(2.0);
    assert KLSkip(ln, [1.0], [0.5]) == SkipTerm(ln, 1.0, 0.5);
    assert KLSkip(ln, p, m) == KLSkip(ln, [1.0], [0.5]) + SkipTerm(ln, 0.0, 0.5);
    assert KLSkip(ln, [0.0], [0.5]) == 0.0;
    assert KLSkip(ln, q, m) == KLSkip(ln, [0.0], [0.5]) + SkipTerm(ln, 1.0, 0.5);
  }

  // ---------------------------------------------------------------------
  // get_js_divergence_at_once as written
  // ---------------------------------------------------------------------

  /** One entry of kl_p_m_terms before the NaN replacement:
      x times the natural log of x over m, computed with IEEE special values. */
  function BroadcastTerm(ln: real -> real, x: real, m: real): (r: Ext)
    ensures 0.0 < x && 0.0 < m ==> r == Fin(x * ln(x / m))
    ensures 0.0 < x && m == 0.0 ==> r == PosInf
    ensures x == 0.0 ==> r.NaN?
  {
    assert 0.0 < x && 0.0 < m ==> LogExt(ln, Div(x, m)) == Fin(ln(x / m));
    assert 0.0 < x && 0.0 < m ==> MulExt(x, Fin(ln(x / m))) == Fin(x * ln(x / m));
    MulExt(x, LogExt(ln, Div(x, m)))
  }

  /** For non-negative x and y with midpoint m, the broadcast term is NaN
      exactly where x == 0 (log(0) = -inf times 0 when y > 0, 0/0 when
      y == 0), and is finite and equal to x * ln(x / m) elsewhere; so the
      NaN replacement is the filter p[i] != 0 of get_KL_divergence. */
  lemma BroadcastTermFilled(ln: real -> real, x: real, y: real, m: real)
    requires 0.0 <= x && 0.0 <= y && m == (x + y) / 2.0
    ensures BroadcastTerm(ln, x, m).NaN? <==> x == 0.0
    ensures FillNaN(BroadcastTerm(ln, x, m), 0.0) == Fin(SkipTerm(ln, x, m))
  {
    if 0.0 < x {
      assert 0.0 < m && 0.0 < x / m;
    } else if 0.0 < y {
      assert 0.0 < m && x / m == 0.0;
    }
  }

  /** Extending both prefixes by one index adds that index's term. */
  lemma KLSkipStep(ln: real -> real, p: seq<real>, m: seq<real>, k: nat)
    requires Dominated(p, m) && k < |p|
    ensures Dominated(p[..k], m[..k]) && Dominated(p[..k + 1], m[..k + 1])
    ensures KLSkip(ln, p[..k + 1], m[..k + 1]) == KLSkip(ln, p[..k], m[..k]) + SkipTerm(ln, p[k], m[k])
  {
    assert p[..k + 1][..k] == p[..k] && m[..k + 1][..k] == m[..k];
  }

  /** The pairwise definition applied to every row of a against every row
      of b, labelled by a's and b's row labels. */
  function JSTable(ln: real -> real, a: Frame, b: Frame): (t: Table<real>)
    requires WellFormed(a) && WellFormed(b) && a.width == b.width
    requires forall i :: 0 <= i < |a.rows| ==> NonNeg(a.rows[i])
    requires forall j :: 0 <= j < |b.rows| ==> NonNeg(b.rows[j])
    ensures HasShape(t, |a.rows|, |b.rows|)
  {
    Table(a.labels, b.labels,
          seq(|a.rows|, i requires 0 <= i < |a.rows| =>
            seq(|b.rows|, j requires 0 <= j < |b.rows| => JS(ln, a.rows[i], b.rows[j]))))
  }

  /** KL(p || m) and KL(q || m) for one pair of rows, summed over k with
      the NaN terms replaced by 0 before they are added. */
  method PairDivergence(ln: real -> real, p: seq<real>, q: seq<real>) returns (js: real)
    requires |p| == |q| && NonNeg(p) && NonNeg(q)
    ensures js == JS(ln, p, q)
  {
    var d := |p|;
    var m := Mid(p, q);
    MidDominates(p, q);
    var klp, klq := 0.0, 0.0;
    for k := 0 to d
      invariant klp == KLSkip(ln, p[..k], m[..k])
      invariant klq == KLSkip(ln, q[..k], m[..k])
    {
      var tp := BroadcastTerm(ln, p[k], m[k]);
      var tq := BroadcastTerm(ln, q[k], m[k]);
      // a NaN term of either side is replaced by 0
      if tp.NaN? {
        tp := Fin(0.0);
      }
      if tq.NaN? {
        tq := Fin(0.0);
      }
      BroadcastTermFilled(ln, p[k], q[k], m[k]);
      BroadcastTermFilled(ln, q[k], p[k], m[k]);
      KLSkipStep(ln, p, m, k);
      KLSkipStep(ln, q, m, k);
      klp := klp + tp.v;
      klq := klq + tq.v;
    }
    assert p[..d] == p && q[..d] == q && m[..d] == m;
    js := 0.5 * klp + 0.5 * klq;
  }

  /** get_js_divergence_at_once: an |a| x |b| table, rows labelled by a's
      index and columns by b's, whose cell (i, j) is the pairwise
      get_JS_divergence of row i of a and row j of b. */
  method GetJSDivergenceAtOnce(ln: real -> real, a: Frame, b: Frame) returns (t: Table<real>)
    requires WellFormed(a) && WellFormed(b) && a.width == b.width
    requires forall i :: 0 <= i < |a.rows| ==> NonNeg(a.rows[i])
    requires forall j :: 0 <= j < |b.rows| ==> NonNeg(b.rows[j])
    ensures HasShape(t, |a.rows|, |b.rows|)
    ensures t.rowLabels == a.labels && t.colLabels == b.labels
    ensures forall i, j :: 0 <= i < |a.rows| && 0 <= j < |b.rows| ==>
              t.cells[i][j] == JS(ln, a.rows[i], b.rows[j])
    ensures t == JSTable(ln, a, b)
  {
    var n, m := |a.rows|, |b.rows|;
    var js := new real[n, m];
    for i := 0 to n
      invariant forall i', j' :: 0 <= i' < i && 0 <= j' < m ==> js[i', j'] == JS(ln, a.rows[i'], b.rows[j'])
    {
      for j := 0 to m
        invariant forall i', j' :: 0 <= i' < n && 0 <= j' < m && (i' < i || (i' == i && j' < j)) ==>
                    js[i', j'] == JS(ln, a.rows[i'], b.rows[j'])
      {
        var cell := PairDivergence(ln, a.rows[i], b.rows[j]);
        js[i, j] := cell;
      }
    }
    var cells := seq(n, i requires 0 <= i < n reads js =>
                   seq(m, j requires 0 <= j < m reads js => js[i, j]));
    t := Table(a.labels, b.labels, cells);
    forall i | 0 <= i < n
      ensures cells[i] == JSTable(ln, a, b).cells[i]
    {
      assert forall j :: 0 <= j < m ==> cells[i][j] == JSTable(ln, a, b).cells[i][j];
    }
  }

  // ---------------------------------------------------------------------
  // Properties of the table
  // ---------------------------------------------------------------------

  /** Swapping the two frames transposes the table. */
  lemma JSTableSwap(ln: real -> real, a: Frame, b: Frame)
    requires WellFormed(a) && WellFormed(b) && a.width == b.width
    requires forall i :: 0 <= i < |a.rows| ==> NonNeg(a.rows[i])
    requires forall j :: 0 <= j < |b.rows| ==> NonNeg(b.rows[j])
    ensures JSTable(ln, b, a).rowLabels == JSTable(ln, a, b).colLabels
    ensures JSTable(ln, b, a).colLabels == JSTable(ln, a, b).rowLabels
    ensures forall i, j :: 0 <= i < |a.rows| && 0 <= j < |b.rows| ==>
              JSTable(ln, b, a).cells[j][i] == JSTable(ln, a, b).cells[i][j]
  {
    forall i, j | 0 <= i < |a.rows| && 0 <= j < |b.rows|
      ensures JSTable(ln, b, a).cells[j][i] == JSTable(ln, a, b).cells[i][j]
    {
      JSSymmetric(ln, a.rows[i], b.rows[j]);
    }
  }

  /** Comparing a frame with itself gives a zero diagonal and a symmetric
      table. */
  lemma JSTableSelf(ln: real -> real, a: Frame)
    requires ln(1.0) == 0.0
    requires WellFormed(a)
    requires forall i :: 0 <= i < |a.rows| ==> NonNeg(a.rows[i])
    ensures forall i :: 0 <= i < |a.rows| ==> JSTable(ln, a, a).cells[i][i] == 0.0
    ensures forall i, j :: 0 <= i < |a.rows| && 0 <= j < |a.rows| ==>
              JSTable(ln, a, a).cells[i][j] == JSTable(ln, a, a).cells[j][i]
  {
    forall i | 0 <= i < |a.rows|
      ensures JSTable(ln, a, a).cells[i][i] == 0.0
    {
      JSSelfIsZero(ln, a.rows[i]);
    }
    JSTableSwap(ln, a, a);
  }
}
