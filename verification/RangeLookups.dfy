/**
 What the range checker is for: if the bus balances for enough challenges, every value looked up by
 the stack or the memory occurs in the value column, so it is a 16-bit integer.
 */
module RangeLookups {
  import opened Mast
  import opened Fields
  import opened RangeChecker

  // Sums of fractions

  /** A coefficient and the point at which its fraction has a pole. */
  type Term<!E> = (E, E)

  /** The sum of the fractions at a challenge. */
  function Fractions<E>(f: Field<E>, alpha: E, ts: seq<Term<E>>): E {
    if ts == [] then f.zero
    else
      var (c, d) := ts[|ts| - 1];
      f.add(Fractions(f, alpha, ts[..|ts| - 1]), f.Div(c, f.Sub(alpha, d)))
  }

  predicate NoPole<E(==)>(alpha: E, ts: seq<Term<E>>) {
    forall i :: 0 <= i < |ts| ==> ts[i].1 != alpha
  }

  lemma DenominatorNonZero<E(!new)>(f: Field<E>, alpha: E, ts: seq<Term<E>>, i: nat)
    requires IsField(f) && NoPole(alpha, ts) && i < |ts|
    ensures f.Sub(alpha, ts[i].1) != f.zero
  {
    SubZero(f, alpha, ts[i].1);
  }

  // Identities of single fractions

  lemma SubTriangle<E(!new)>(f: Field<E>, a: E, b: E, c: E)
    requires IsField(f)
    ensures f.add(f.Sub(a, b), f.Sub(b, c)) == f.Sub(a, c)
  {
    assert AddAssociates(f, f.Sub(a, b), b, f.neg(c));
    SubAdds(f, a, b);
  }

  lemma MulInverse<E(!new)>(f: Field<E>, x: E, c: E)
    requires IsField(f) && x != f.zero
    ensures f.mul(x, f.Div(c, x)) == c
  {
    assert MulCommutes(f, c, f.inv(x)) && MulAssociates(f, x, f.inv(x), c);
    assert InvCancels(f, x) && MulCommutes(f, f.one, c) && OneIsNeutral(f, c);
  }

  lemma MulAddRight<E(!new)>(f: Field<E>, a: E, b: E, c: E)
    requires IsField(f)
    ensures f.mul(f.add(a, b), c) == f.add(f.mul(a, c), f.mul(b, c))
  {
    assert MulCommutes(f, f.add(a, b), c) && Distributes(f, c, a, b);
    assert MulCommutes(f, a, c) && MulCommutes(f, b, c);
  }

  /** (x + e) * (c / x) == c + (c * e) / x */
  lemma ShiftFraction<E(!new)>(f: Field<E>, x: E, e: E, c: E)
    requires IsField(f) && x != f.zero
    ensures f.mul(f.add(x, e), f.Div(c, x)) == f.add(c, f.Div(f.mul(c, e), x))
  {
    MulAddRight(f, x, e, f.Div(c, x));
    MulInverse(f, x, c);
    assert MulAssociates(f, e, c, f.inv(x)) && MulCommutes(f, e, c);
  }

  /** k / x - k / y == (k / y / x) * (y - x) */
  lemma FractionDifference<E(!new)>(f: Field<E>, k: E, x: E, y: E)
    requires IsField(f) && x != f.zero && y != f.zero
    ensures f.Sub(f.Div(k, x), f.Div(k, y)) == f.mul(f.Div(f.Div(k, y), x), f.Sub(y, x))
  {
    var q := f.Div(f.Div(k, y), x);
    MulSub(f, q, y, x);
    // q * x == k / y
    MulInverse(f, x, f.Div(k, y));
    assert MulCommutes(f, q, x);
    // q * y == k / x
    var i, j := f.inv(x), f.inv(y);
    assert MulAssociates(f, k, j, i) && MulCommutes(f, j, i) && MulAssociates(f, k, i, j);
    assert q == f.Div(f.Div(k, x), y);
    MulInverse(f, y, f.Div(k, x));
    assert MulCommutes(f, q, y);
  }

  // Fractions with different poles are independent

  predicate Distinct<E(==)>(ts: seq<Term<E>>) {
    forall i, j :: 0 <= i < j < |ts| ==> ts[i].1 != ts[j].1
  }

  function Coefficients<E>(f: Field<E>, ts: seq<Term<E>>): E {
    if ts == [] then f.zero else f.add(Coefficients(f, ts[..|ts| - 1]), ts[|ts| - 1].0)
  }

  /** Coefficients times the distance of their points from `d0`. */
  function Shifted<E>(f: Field<E>, ts: seq<Term<E>>, d0: E): (r: seq<Term<E>>)
    ensures |r| == |ts|
  {
    if ts == [] then []
    else
      var (c, d) := ts[|ts| - 1];
      Shifted(f, ts[..|ts| - 1], d0) + [(f.mul(c, f.Sub(d, d0)), d)]
  }

  lemma {:induction false} ShiftedAt<E>(f: Field<E>, ts: seq<Term<E>>, d0: E, i: nat)
    requires i < |ts|
    ensures Shifted(f, ts, d0)[i] == (f.mul(ts[i].0, f.Sub(ts[i].1, d0)), ts[i].1)
  {
    if i < |ts| - 1 {
      ShiftedAt(f, ts[..|ts| - 1], d0, i);
    }
  }

  /** (alpha - d0) * sum == coefficients + shifted sum */
  lemma {:induction false} ShiftedSum<E(!new)>(f: Field<E>, alpha: E, ts: seq<Term<E>>, d0: E)
    requires IsField(f) && NoPole(alpha, ts)
    ensures f.mul(f.Sub(alpha, d0), Fractions(f, alpha, ts)) ==
            f.add(Coefficients(f, ts), Fractions(f, alpha, Shifted(f, ts, d0)))
  {
    if ts == [] {
      MulZero(f, f.Sub(alpha, d0));
      assert ZeroIsNeutral(f, f.zero);
    } else {
      var n := |ts| - 1;
      var init, c, d := ts[..n], ts[n].0, ts[n].1;
      ShiftedSum(f, alpha, init, d0);
      DenominatorNonZero(f, alpha, ts, n);
      SubTriangle(f, alpha, d, d0);
      ShiftFraction(f, f.Sub(alpha, d), f.Sub(d, d0), c);
      assert Distributes(f, f.Sub(alpha, d0), Fractions(f, alpha, init), f.Div(c, f.Sub(alpha, d)));
      var shifted := Shifted(f, ts, d0);
      assert shifted[..n] == Shifted(f, init, d0);
      AddInterchange(f, Coefficients(f, init), Fractions(f, alpha, Shifted(f, init, d0)), c,
                     f.Div(f.mul(c, f.Sub(d, d0)), f.Sub(alpha, d)));
    }
  }

  /** Coefficients divided by the distance of their points from a challenge. */
  function Reduced<E>(f: Field<E>, ts: seq<Term<E>>, beta: E): (r: seq<Term<E>>)
    ensures |r| == |ts|
  {
    if ts == [] then []
    else
      var (c, d) := ts[|ts| - 1];
      Reduced(f, ts[..|ts| - 1], beta) + [(f.Div(c, f.Sub(beta, d)), d)]
  }

  lemma {:induction false} ReducedAt<E>(f: Field<E>, ts: seq<Term<E>>, beta: E, i: nat)
    requires i < |ts|
    ensures Reduced(f, ts, beta)[i] == (f.Div(ts[i].0, f.Sub(beta, ts[i].1)), ts[i].1)
  {
    if i < |ts| - 1 {
      ReducedAt(f, ts[..|ts| - 1], beta, i);
    }
  }

  /** (a + b) - (c + d) == (a - c) + (b - d) */
  lemma SubInterchange<E(!new)>(f: Field<E>, a: E, b: E, c: E, d: E)
    requires IsField(f)
    ensures f.Sub(f.add(a, b), f.add(c, d)) == f.add(f.Sub(a, c), f.Sub(b, d))
  {
    NegAdd(f, c, d);
    AddInterchange(f, a, b, f.neg(c), f.neg(d));
  }

  lemma NegAdd<E(!new)>(f: Field<E>, a: E, b: E)
    requires IsField(f)
    ensures f.neg(f.add(a, b)) == f.add(f.neg(a), f.neg(b))
  {
    var x, y, s := f.neg(f.add(a, b)), f.add(f.neg(a), f.neg(b)), f.add(a, b);
    assert NegCancels(f, s) && AddCommutes(f, s, x);
    AddInterchange(f, f.neg(a), f.neg(b), a, b);
    assert NegCancels(f, a) && AddCommutes(f, a, f.neg(a));
    assert NegCancels(f, b) && AddCommutes(f, b, f.neg(b));
    assert ZeroIsNeutral(f, f.zero);
    AddCancels(f, x, y, s);
  }

  /** The difference of the sums at two challenges. */
  lemma {:induction false} ReducedSum<E(!new)>(f: Field<E>, alpha: E, beta: E, ts: seq<Term<E>>)
    requires IsField(f) && NoPole(alpha, ts) && NoPole(beta, ts)
    ensures f.Sub(Fractions(f, alpha, ts), Fractions(f, beta, ts)) ==
            f.mul(Fractions(f, alpha, Reduced(f, ts, beta)), f.Sub(beta, alpha))
  {
    if ts == [] {
      SubZero(f, f.zero, f.zero);
      MulZero(f, f.Sub(beta, alpha));
      assert MulCommutes(f, f.Sub(beta, alpha), f.zero);
    } else {
      var n := |ts| - 1;
      var init, c, d := ts[..n], ts[n].0, ts[n].1;
      ReducedSum(f, alpha, beta, init);
      DenominatorNonZero(f, alpha, ts, n);
      DenominatorNonZero(f, beta, ts, n);
      var x, y := f.Sub(alpha, d), f.Sub(beta, d);
      FractionDifference(f, c, x, y);
      SubShift(f, beta, alpha, d);
      SubInterchange(f, Fractions(f, alpha, init), f.Div(c, x), Fractions(f, beta, init), f.Div(c, y));
      var reduced := Reduced(f, ts, beta);
      assert reduced[..n] == Reduced(f, init, beta);
      MulAddRight(f, Fractions(f, alpha, Reduced(f, init, beta)), f.Div(f.Div(c, y), x), f.Sub(beta, alpha));
    }
  }

  lemma SubShift<E(!new)>(f: Field<E>, a: E, b: E, d: E)
    requires IsField(f)
    ensures f.Sub(f.Sub(a, d), f.Sub(b, d)) == f.Sub(a, b)
  {
    SubAdds(f, f.Sub(a, d), f.Sub(b, d));
    SubAdds(f, a, d);
    SubAdds(f, b, d);
    var x, y := f.Sub(f.Sub(a, d), f.Sub(b, d)), f.Sub(b, d);
    // (x + y) + d == a and y + d == b, so x + b == a
    assert AddAssociates(f, x, y, d);
    SubAdds(f, a, b);
    AddCancels(f, x, f.Sub(a, b), b);
  }

  lemma {:induction false} ZeroCoefficients<E(!new)>(f: Field<E>, alpha: E, ts: seq<Term<E>>)
    requires IsField(f) && forall i :: 0 <= i < |ts| ==> ts[i].0 == f.zero
    ensures Fractions(f, alpha, ts) == f.zero
  {
    if ts != [] {
      ZeroCoefficients(f, alpha, ts[..|ts| - 1]);
      ZeroDiv(f, f.Sub(alpha, ts[|ts| - 1].1));
      assert ZeroIsNeutral(f, f.zero);
    }
  }

  lemma ZeroDiv<E(!new)>(f: Field<E>, x: E)
    requires IsField(f)
    ensures f.Div(f.zero, x) == f.zero
  {
    MulZero(f, f.inv(x));
    assert MulCommutes(f, f.inv(x), f.zero);
  }

  lemma DivZero<E(!new)>(f: Field<E>, c: E, x: E)
    requires IsField(f) && x != f.zero && f.Div(c, x) == f.zero
    ensures c == f.zero
  {
    MulInverse(f, x, c);
    MulZero(f, x);
  }

  /** The sum vanishes at every one of these challenges, none of which is a pole. */
  ghost predicate Vanishes<E>(f: Field<E>, alphas: seq<E>, ts: seq<Term<E>>) {
    forall i :: 0 <= i < |alphas| ==> NoPole(alphas[i], ts) && Fractions(f, alphas[i], ts) == f.zero
  }

  predicate DistinctChallenges<E(==)>(alphas: seq<E>) {
    forall i, j :: 0 <= i < j < |alphas| ==> alphas[i] != alphas[j]
  }

  /** One term less, one challenge less. */
  lemma VanishesReduced<E(!new)>(f: Field<E>, alphas: seq<E>, ts: seq<Term<E>>, i: nat)
    requires IsField(f) && ts != [] && alphas != [] && DistinctChallenges(alphas) && Vanishes(f, alphas, ts)
    requires i < |alphas| - 1
    ensures var n, d0, beta := |ts| - 1, ts[|ts| - 1].1, alphas[|alphas| - 1];
            Fractions(f, alphas[i], Reduced(f, Shifted(f, ts[..n], d0), beta)) == f.zero
  {
    var n, alpha, beta := |ts| - 1, alphas[i], alphas[|alphas| - 1];
    var c0, d0 := ts[n].0, ts[n].1;
    assert NoPole(alpha, ts) && Fractions(f, alpha, ts) == f.zero;
    assert NoPole(beta, ts) && Fractions(f, beta, ts) == f.zero;
    var us := Shifted(f, ts, d0);
    SameShiftedSum(f, alpha, beta, ts, d0);
    NoPoleShifted(f, alpha, ts, d0);
    NoPoleShifted(f, beta, ts, d0);
    ReducedSum(f, alpha, beta, us);
    SubZero(f, Fractions(f, alpha, us), Fractions(f, beta, us));
    var rs := Reduced(f, us, beta);
    SubZero(f, beta, alpha);
    NoZeroDivisors(f, Fractions(f, alpha, rs), f.Sub(beta, alpha));
    // the last term has become zero
    assert us[..n] == Shifted(f, ts[..n], d0) && rs[..n] == Reduced(f, us[..n], beta);
    SubZero(f, d0, d0);
    MulZero(f, c0);
    ZeroDiv(f, f.Sub(beta, d0));
    ZeroDiv(f, f.Sub(alpha, d0));
    assert ZeroIsNeutral(f, Fractions(f, alpha, rs[..n]));
  }

  lemma SameShiftedSum<E(!new)>(f: Field<E>, alpha: E, beta: E, ts: seq<Term<E>>, d0: E)
    requires IsField(f) && NoPole(alpha, ts) && NoPole(beta, ts)
    requires Fractions(f, alpha, ts) == Fractions(f, beta, ts) == f.zero
    ensures Fractions(f, alpha, Shifted(f, ts, d0)) == Fractions(f, beta, Shifted(f, ts, d0))
  {
    ShiftedSum(f, alpha, ts, d0);
    ShiftedSum(f, beta, ts, d0);
    MulZero(f, f.Sub(alpha, d0));
    MulZero(f, f.Sub(beta, d0));
    var k, a, b := Coefficients(f, ts), Fractions(f, alpha, Shifted(f, ts, d0)), Fractions(f, beta, Shifted(f, ts, d0));
    assert AddCommutes(f, k, a) && AddCommutes(f, k, b);
    AddCancels(f, a, b, k);
  }

  lemma NoPoleShifted<E>(f: Field<E>, alpha: E, ts: seq<Term<E>>, d0: E)
    requires NoPole(alpha, ts)
    ensures NoPole(alpha, Shifted(f, ts, d0))
  {
    forall i | 0 <= i < |ts|
      ensures Shifted(f, ts, d0)[i].1 != alpha
    {
      ShiftedAt(f, ts, d0, i);
    }
  }

  lemma ReducedTermAt<E>(f: Field<E>, ts: seq<Term<E>>, d0: E, beta: E, i: nat)
    requires i < |ts|
    ensures Reduced(f, Shifted(f, ts, d0), beta)[i] ==
            (f.Div(f.mul(ts[i].0, f.Sub(ts[i].1, d0)), f.Sub(beta, ts[i].1)), ts[i].1)
  {
    ShiftedAt(f, ts, d0, i);
    ReducedAt(f, Shifted(f, ts, d0), beta, i);
  }

  /** A sum of fractions with distinct poles that vanishes at as many challenges has no coefficients. */
  lemma {:induction false} Independent<E(!new)>(f: Field<E>, alphas: seq<E>, ts: seq<Term<E>>)
    requires IsField(f) && Distinct(ts) && DistinctChallenges(alphas)
    requires Vanishes(f, alphas, ts) && |ts| <= |alphas|
    ensures forall i :: 0 <= i < |ts| ==> ts[i].0 == f.zero
    decreases |ts|
  {
    if ts != [] {
      var n, d0, k := |ts| - 1, ts[|ts| - 1].1, |alphas| - 1;
      var beta, init := alphas[k], ts[..n];
      var rs := Reduced(f, Shifted(f, init, d0), beta);
      ReducedKeeps(f, alphas, ts);
      Independent(f, alphas[..k], rs);
      forall i | 0 <= i < n
        ensures ts[i].0 == f.zero
      {
        ReducedTermAt(f, init, d0, beta, i);
        assert NoPole(beta, ts);
        CoefficientZero(f, ts[i].0, ts[i].1, d0, beta);
      }
      ZeroCoefficients(f, beta, init);
      assert NoPole(beta, ts) && Fractions(f, beta, ts) == f.zero;
      var q := f.Div(ts[n].0, f.Sub(beta, d0));
      assert AddCommutes(f, f.zero, q) && ZeroIsNeutral(f, q);
      DenominatorNonZero(f, beta, ts, n);
      DivZero(f, ts[n].0, f.Sub(beta, d0));
    }
  }

  lemma ReducedKeeps<E(!new)>(f: Field<E>, alphas: seq<E>, ts: seq<Term<E>>)
    requires IsField(f) && Distinct(ts) && DistinctChallenges(alphas)
    requires Vanishes(f, alphas, ts) && ts != [] && alphas != []
    ensures var n, k := |ts| - 1, |alphas| - 1;
            var rs := Reduced(f, Shifted(f, ts[..n], ts[n].1), alphas[k]);
            Distinct(rs) && Vanishes(f, alphas[..k], rs)
  {
    var n, k := |ts| - 1, |alphas| - 1;
    var init, d0, beta := ts[..n], ts[n].1, alphas[k];
    var rs := Reduced(f, Shifted(f, init, d0), beta);
    forall i | 0 <= i < n
      ensures rs[i].1 == ts[i].1
    {
      ReducedTermAt(f, init, d0, beta, i);
    }
    forall i | 0 <= i < k
      ensures NoPole(alphas[..k][i], rs) && Fractions(f, alphas[..k][i], rs) == f.zero
    {
      assert NoPole(alphas[i], ts);
      VanishesReduced(f, alphas, ts, i);
    }
  }

  lemma CoefficientZero<E(!new)>(f: Field<E>, c: E, d: E, d0: E, beta: E)
    requires IsField(f) && d != d0 && beta != d
    requires f.Div(f.mul(c, f.Sub(d, d0)), f.Sub(beta, d)) == f.zero
    ensures c == f.zero
  {
    SubZero(f, beta, d);
    DivZero(f, f.mul(c, f.Sub(d, d0)), f.Sub(beta, d));
    SubZero(f, d, d0);
    NoZeroDivisors(f, c, f.Sub(d, d0));
  }

  // Collecting fractions with the same pole

  /** The coefficients at one point, added up. */
  function CoefficientAt<E(==)>(f: Field<E>, ts: seq<Term<E>>, d: E): E {
    if ts == [] then f.zero
    else
      var rest, t := CoefficientAt(f, ts[..|ts| - 1], d), ts[|ts| - 1];
      if t.1 == d then f.add(rest, t.0) else rest
  }

  /** Adds a term to collected ones. */
  function AddTerm<E(==)>(f: Field<E>, gs: seq<Term<E>>, t: Term<E>): seq<Term<E>> {
    if gs == [] then [t]
    else
      var init, g := gs[..|gs| - 1], gs[|gs| - 1];
      if g.1 == t.1 then init + [(f.add(g.0, t.0), g.1)] else AddTerm(f, init, t) + [g]
  }

  function Collected<E(==)>(f: Field<E>, ts: seq<Term<E>>): seq<Term<E>> {
    if ts == [] then [] else AddTerm(f, Collected(f, ts[..|ts| - 1]), ts[|ts| - 1])
  }

  function Points<E>(ts: seq<Term<E>>): set<E> {
    set i | 0 <= i < |ts| :: ts[i].1
  }

  lemma PointsSnoc<E>(ts: seq<Term<E>>, t: Term<E>)
    ensures Points(ts + [t]) == Points(ts) + {t.1}
  {
    var us := ts + [t];
    forall d | d in Points(ts) + {t.1}
      ensures d in Points(us)
    {
      if d in Points(ts) {
        var i :| 0 <= i < |ts| && ts[i].1 == d;
        assert us[i].1 == d;
      } else {
        assert us[|ts|].1 == d;
      }
    }
  }

  lemma DistinctSnoc<E>(ts: seq<Term<E>>, t: Term<E>)
    ensures Distinct(ts + [t]) <==> Distinct(ts) && t.1 !in Points(ts)
  {
    var us := ts + [t];
    if Distinct(us) {
      forall i, j | 0 <= i < j < |ts|
        ensures ts[i].1 != ts[j].1
      {
        assert us[i].1 != us[j].1;
      }
      forall i | 0 <= i < |ts|
        ensures ts[i].1 != t.1
      {
        assert us[i].1 != us[|ts|].1;
      }
    }
  }

  lemma {:induction false} AddTermPoints<E>(f: Field<E>, gs: seq<Term<E>>, t: Term<E>)
    requires Distinct(gs)
    ensures var r := AddTerm(f, gs, t);
            Distinct(r) && Points(r) == Points(gs) + {t.1} && |r| <= |gs| + 1
  {
    if gs == [] {
      assert [] + [t] == [t];
      PointsSnoc([], t);
    } else {
      var init, g := gs[..|gs| - 1], gs[|gs| - 1];
      assert gs == init + [g];
      DistinctSnoc(init, g);
      PointsSnoc(init, g);
      if g.1 == t.1 {
        DistinctSnoc(init, (f.add(g.0, t.0), g.1));
        PointsSnoc(init, (f.add(g.0, t.0), g.1));
      } else {
        AddTermPoints(f, init, t);
        DistinctSnoc(AddTerm(f, init, t), g);
        PointsSnoc(AddTerm(f, init, t), g);
      }
    }
  }

  lemma {:induction false} AddTermSum<E(!new)>(f: Field<E>, alpha: E, gs: seq<Term<E>>, t: Term<E>)
    requires IsField(f)
    ensures Fractions(f, alpha, AddTerm(f, gs, t)) == f.add(Fractions(f, alpha, gs), f.Div(t.0, f.Sub(alpha, t.1)))
  {
    if gs == [] {
      assert [t][..0] == [];
    } else {
      var init, g := gs[..|gs| - 1], gs[|gs| - 1];
      var s, x, y := Fractions(f, alpha, init), f.Div(g.0, f.Sub(alpha, g.1)), f.Div(t.0, f.Sub(alpha, t.1));
      if g.1 == t.1 {
        var merged := (f.add(g.0, t.0), g.1);
        assert (init + [merged])[..|init|] == init;
        MulAddRight(f, g.0, t.0, f.inv(f.Sub(alpha, g.1)));
        assert AddAssociates(f, s, x, y);
      } else {
        AddTermSum(f, alpha, init, t);
        var more := AddTerm(f, init, t);
        assert (more + [g])[..|more|] == more;
        assert AddAssociates(f, s, y, x) && AddCommutes(f, y, x) && AddAssociates(f, s, x, y);
      }
    }
  }

  lemma {:induction false} AddTermCoefficient<E(!new)>(f: Field<E>, gs: seq<Term<E>>, t: Term<E>, d: E)
    requires IsField(f)
    ensures CoefficientAt(f, AddTerm(f, gs, t), d) ==
            if t.1 == d then f.add(CoefficientAt(f, gs, d), t.0) else CoefficientAt(f, gs, d)
  {
    if gs == [] {
      assert [t][..0] == [];
    } else {
      var init, g := gs[..|gs| - 1], gs[|gs| - 1];
      var s := CoefficientAt(f, init, d);
      if g.1 == t.1 {
        var merged := (f.add(g.0, t.0), g.1);
        assert (init + [merged])[..|init|] == init;
        assert AddAssociates(f, s, g.0, t.0);
      } else {
        AddTermCoefficient(f, init, t, d);
        var more := AddTerm(f, init, t);
        assert (more + [g])[..|more|] == more;
      }
    }
  }

  /** Collecting terms changes neither the sum nor the coefficient at any point. */
  lemma {:induction false} CollectedMeans<E(!new)>(f: Field<E>, ts: seq<Term<E>>)
    requires IsField(f)
    ensures var gs := Collected(f, ts);
            Distinct(gs) && Points(gs) == Points(ts) && |gs| <= |ts|
  {
    if ts != [] {
      var init, t := ts[..|ts| - 1], ts[|ts| - 1];
      assert ts == init + [t];
      CollectedMeans(f, init);
      AddTermPoints(f, Collected(f, init), t);
      PointsSnoc(init, t);
    }
  }

  lemma {:induction false} CollectedSum<E(!new)>(f: Field<E>, alpha: E, ts: seq<Term<E>>)
    requires IsField(f)
    ensures Fractions(f, alpha, Collected(f, ts)) == Fractions(f, alpha, ts)
  {
    if ts != [] {
      CollectedSum(f, alpha, ts[..|ts| - 1]);
      AddTermSum(f, alpha, Collected(f, ts[..|ts| - 1]), ts[|ts| - 1]);
    }
  }

  lemma {:induction false} CollectedCoefficient<E(!new)>(f: Field<E>, ts: seq<Term<E>>, d: E)
    requires IsField(f)
    ensures CoefficientAt(f, Collected(f, ts), d) == CoefficientAt(f, ts, d)
  {
    if ts != [] {
      CollectedCoefficient(f, ts[..|ts| - 1], d);
      AddTermCoefficient(f, Collected(f, ts[..|ts| - 1]), ts[|ts| - 1], d);
    }
  }

  lemma {:induction false} NoCoefficients<E(!new)>(f: Field<E>, ts: seq<Term<E>>, d: E)
    requires IsField(f) && forall i :: 0 <= i < |ts| ==> ts[i].0 == f.zero
    ensures CoefficientAt(f, ts, d) == f.zero
  {
    if ts != [] {
      NoCoefficients(f, ts[..|ts| - 1], d);
      assert ZeroIsNeutral(f, f.zero);
    }
  }

  /** If a sum vanishes at as many challenges as it has terms, the coefficients at each point cancel. */
  lemma CoefficientsCancel<E(!new)>(f: Field<E>, alphas: seq<E>, ts: seq<Term<E>>, d: E)
    requires IsField(f) && DistinctChallenges(alphas) && Vanishes(f, alphas, ts) && |ts| <= |alphas|
    ensures CoefficientAt(f, ts, d) == f.zero
  {
    var gs := Collected(f, ts);
    CollectedMeans(f, ts);
    forall i | 0 <= i < |alphas|
      ensures NoPole(alphas[i], gs) && Fractions(f, alphas[i], gs) == f.zero
    {
      assert NoPole(alphas[i], ts);
      CollectedSum(f, alphas[i], ts);
      SamePoles(alphas[i], ts, gs);
    }
    Independent(f, alphas, gs);
    NoCoefficients(f, gs, d);
    CollectedCoefficient(f, ts, d);
  }

  lemma SamePoles<E>(alpha: E, ts: seq<Term<E>>, gs: seq<Term<E>>)
    requires NoPole(alpha, ts) && Points(gs) == Points(ts)
    ensures NoPole(alpha, gs)
  {
    forall i | 0 <= i < |gs|
      ensures gs[i].1 != alpha
    {
      assert gs[i].1 in Points(gs);
    }
  }

  // Traces

  /** Lookups of a row: the flag under which each value is looked up. */
  function Requests<E>(f: Field<E>, r: Row<E>): seq<Term<E>> {
    var s, m := StackFlag(f, r), MemoryFlag(f, r);
    [(s, r.helper0), (s, r.helper1), (s, r.helper2), (s, r.helper3), (m, r.delta0), (m, r.delta1)]
  }

  function AllRequests<E>(f: Field<E>, rows: seq<Row<E>>): (ts: seq<Term<E>>)
    ensures |ts| == 6 * |rows|
  {
    if rows == [] then [] else AllRequests(f, rows[..|rows| - 1]) + Requests(f, rows[|rows| - 1])
  }

  /** Values of the column with their multiplicities. */
  function Supplies<E>(rows: seq<Row<E>>): (ts: seq<Term<E>>)
    ensures |ts| == |rows|
  {
    seq(|rows|, i requires 0 <= i < |rows| => (rows[i].multiplicity, rows[i].v))
  }

  function Negated<E>(f: Field<E>, ts: seq<Term<E>>): (r: seq<Term<E>>)
    ensures |r| == |ts|
  {
    seq(|ts|, i requires 0 <= i < |ts| => (f.neg(ts[i].0), ts[i].1))
  }

  lemma {:induction false} FractionsConcat<E(!new)>(f: Field<E>, alpha: E, xs: seq<Term<E>>, ys: seq<Term<E>>)
    requires IsField(f)
    ensures Fractions(f, alpha, xs + ys) == f.add(Fractions(f, alpha, xs), Fractions(f, alpha, ys))
  {
    if ys == [] {
      assert xs + ys == xs;
      assert ZeroIsNeutral(f, Fractions(f, alpha, xs));
    } else {
      var init, y := ys[..|ys| - 1], ys[|ys| - 1];
      assert (xs + ys)[..|xs + ys| - 1] == xs + init;
      FractionsConcat(f, alpha, xs, init);
      assert AddAssociates(f, Fractions(f, alpha, xs), Fractions(f, alpha, init), f.Div(y.0, f.Sub(alpha, y.1)));
    }
  }

  lemma {:induction false} FractionsNegated<E(!new)>(f: Field<E>, alpha: E, ts: seq<Term<E>>)
    requires IsField(f)
    ensures Fractions(f, alpha, Negated(f, ts)) == f.neg(Fractions(f, alpha, ts))
  {
    if ts == [] {
      NegZero(f);
    } else {
      var n := |ts| - 1;
      var init, c, x := ts[..n], ts[n].0, f.Sub(alpha, ts[n].1);
      FractionsNegated(f, alpha, init);
      assert Negated(f, ts)[..n] == Negated(f, init);
      NegMul(f, c, f.inv(x));
      NegAdd(f, Fractions(f, alpha, init), f.Div(c, x));
    }
  }

  lemma NegZero<E(!new)>(f: Field<E>)
    requires IsField(f)
    ensures f.neg(f.zero) == f.zero
  {
    assert NegCancels(f, f.zero) && AddCommutes(f, f.zero, f.neg(f.zero)) && ZeroIsNeutral(f, f.neg(f.zero));
  }

  lemma NegMul<E(!new)>(f: Field<E>, a: E, b: E)
    requires IsField(f)
    ensures f.mul(f.neg(a), b) == f.neg(f.mul(a, b))
  {
    MulNeg(f, b, a);
    assert MulCommutes(f, b, f.neg(a)) && MulCommutes(f, b, a);
  }

  lemma {:induction false} SuppliesSum<E(!new)>(f: Field<E>, alpha: E, rows: seq<Row<E>>)
    ensures Fractions(f, alpha, Supplies(rows)) == TotalSupplied(f, alpha, rows)
  {
    if rows != [] {
      SuppliesSum(f, alpha, rows[..|rows| - 1]);
      assert Supplies(rows)[..|rows| - 1] == Supplies(rows[..|rows| - 1]);
    }
  }

  lemma {:induction false} SumOfFractions<E>(f: Field<E>, alpha: E, ts: seq<Term<E>>, xs: seq<E>)
    requires |xs| == |ts| && forall i :: 0 <= i < |ts| ==> xs[i] == f.Div(ts[i].0, f.Sub(alpha, ts[i].1))
    ensures Fractions(f, alpha, ts) == Sum(f, xs)
  {
    if ts != [] {
      SumOfFractions(f, alpha, ts[..|ts| - 1], xs[..|xs| - 1]);
    }
  }

  lemma {:induction false} RequestsSum<E(!new)>(f: Field<E>, alpha: E, rows: seq<Row<E>>)
    requires IsField(f)
    ensures Fractions(f, alpha, AllRequests(f, rows)) == TotalRequested(f, alpha, rows)
  {
    if rows != [] {
      var init, r := rows[..|rows| - 1], rows[|rows| - 1];
      RequestsSum(f, alpha, init);
      FractionsConcat(f, alpha, AllRequests(f, init), Requests(f, r));
      SumOfFractions(f, alpha, Requests(f, r), Requested(f, alpha, r));
    }
  }

  /** All fractions of a trace: what is supplied less what is requested. */
  function BusTerms<E>(f: Field<E>, rows: seq<Row<E>>): seq<Term<E>> {
    Supplies(rows) + Negated(f, AllRequests(f, rows))
  }

  /** A balanced bus is a sum of fractions that vanishes. */
  lemma BalancedVanishes<E(!new)>(f: Field<E>, alpha: E, rows: seq<Row<E>>)
    requires IsField(f) && TotalSupplied(f, alpha, rows) == TotalRequested(f, alpha, rows)
    ensures Fractions(f, alpha, BusTerms(f, rows)) == f.zero
  {
    FractionsConcat(f, alpha, Supplies(rows), Negated(f, AllRequests(f, rows)));
    FractionsNegated(f, alpha, AllRequests(f, rows));
    SuppliesSum(f, alpha, rows);
    RequestsSum(f, alpha, rows);
    assert NegCancels(f, TotalSupplied(f, alpha, rows));
  }

  // Looked up values occur in the column

  lemma {:induction false} CoefficientConcat<E(!new)>(f: Field<E>, xs: seq<Term<E>>, ys: seq<Term<E>>, d: E)
    requires IsField(f)
    ensures CoefficientAt(f, xs + ys, d) == f.add(CoefficientAt(f, xs, d), CoefficientAt(f, ys, d))
  {
    if ys == [] {
      assert xs + ys == xs;
      assert ZeroIsNeutral(f, CoefficientAt(f, xs, d));
    } else {
      var init, y := ys[..|ys| - 1], ys[|ys| - 1];
      assert (xs + ys)[..|xs + ys| - 1] == xs + init;
      CoefficientConcat(f, xs, init, d);
      assert AddAssociates(f, CoefficientAt(f, xs, d), CoefficientAt(f, init, d), y.0);
    }
  }

  lemma {:induction false} NoCoefficientAt<E>(f: Field<E>, ts: seq<Term<E>>, d: E)
    requires d !in Points(ts)
    ensures CoefficientAt(f, ts, d) == f.zero
  {
    if ts != [] {
      var init, t := ts[..|ts| - 1], ts[|ts| - 1];
      assert ts == init + [t];
      PointsSnoc(init, t);
      NoCoefficientAt(f, init, d);
    }
  }

  /** The sum of `n` ones. */
  function Multiple<E>(f: Field<E>, n: nat): E {
    if n == 0 then f.zero else f.add(Multiple(f, n - 1), f.one)
  }

  /** How often a value is looked up. */
  function Count<E(==)>(f: Field<E>, ts: seq<Term<E>>, d: E): (n: nat)
    ensures n <= |ts|
  {
    if ts == [] then 0
    else
      var rest, t := Count(f, ts[..|ts| - 1], d), ts[|ts| - 1];
      if t.1 == d && t.0 == f.one then rest + 1 else rest
  }

  predicate BinaryFlags<E(==)>(f: Field<E>, ts: seq<Term<E>>) {
    forall i :: 0 <= i < |ts| ==> ts[i].0 in {f.zero, f.one}
  }

  lemma {:induction false} CountedCoefficient<E(!new)>(f: Field<E>, ts: seq<Term<E>>, d: E)
    requires IsField(f) && BinaryFlags(f, ts)
    ensures CoefficientAt(f, Negated(f, ts), d) == f.neg(Multiple(f, Count(f, ts, d)))
  {
    NegZero(f);
    if ts != [] {
      var n := |ts| - 1;
      var init, t := ts[..n], ts[n];
      CountedCoefficient(f, init, d);
      assert Negated(f, ts)[..n] == Negated(f, init);
      assert t.0 in {f.zero, f.one};
      assert ZeroIsNeutral(f, CoefficientAt(f, Negated(f, init), d));
      NegAdd(f, Multiple(f, Count(f, init, d)), f.one);
    }
  }

  lemma {:induction false} CountPositive<E>(f: Field<E>, ts: seq<Term<E>>, i: nat)
    requires i < |ts| && ts[i].0 == f.one
    ensures Count(f, ts, ts[i].1) > 0
  {
    if i < |ts| - 1 {
      CountPositive(f, ts[..|ts| - 1], i);
    }
  }

  /** The columns behind the flags are binary. */
  predicate BinaryRow<E(==)>(f: Field<E>, r: Row<E>) {
    {r.opBit4, r.opBit5, r.opBit6, r.selector0, r.selector1, r.selector2} <= {f.zero, f.one}
  }

  predicate BinaryRows<E(==)>(f: Field<E>, rows: seq<Row<E>>) {
    forall i :: 0 <= i < |rows| ==> BinaryRow(f, rows[i])
  }

  lemma {:induction false} RequestsBinary<E(!new)>(f: Field<E>, rows: seq<Row<E>>)
    requires IsField(f) && BinaryRows(f, rows)
    ensures BinaryFlags(f, AllRequests(f, rows))
  {
    if rows != [] {
      var init, r := rows[..|rows| - 1], rows[|rows| - 1];
      RequestsBinary(f, init);
      assert BinaryRow(f, r);
      FlagsMeaning(f, r);
      BinaryConcat(f, AllRequests(f, init), Requests(f, r));
    }
  }

  lemma BinaryConcat<E>(f: Field<E>, xs: seq<Term<E>>, ys: seq<Term<E>>)
    requires BinaryFlags(f, xs) && BinaryFlags(f, ys)
    ensures BinaryFlags(f, xs + ys)
  {
  }

  /** A challenge at which no denominator is zero is no pole. */
  lemma NoBusPole<E(!new)>(f: Field<E>, alpha: E, rows: seq<Row<E>>)
    requires IsField(f) && AllNonZero(f, alpha, rows)
    ensures NoPole(alpha, BusTerms(f, rows))
  {
    NoRequestPole(f, alpha, rows);
    forall i | 0 <= i < |rows|
      ensures rows[i].v != alpha
    {
      RowNoPole(f, alpha, rows[i]);
    }
  }

  lemma RowNoPole<E(!new)>(f: Field<E>, alpha: E, r: Row<E>)
    requires IsField(f) && NonZero(f, Lookups(f, alpha, r))
    ensures r.v != alpha && NoPole(alpha, Requests(f, r))
  {
    var all := Lookups(f, alpha, r).All();
    assert all[0] != f.zero && all[1] != f.zero && all[2] != f.zero && all[3] != f.zero;
    assert all[4] != f.zero && all[5] != f.zero && all[6] != f.zero;
    SubZero(f, alpha, r.v);
    SubZero(f, alpha, r.helper0);
    SubZero(f, alpha, r.helper1);
    SubZero(f, alpha, r.helper2);
    SubZero(f, alpha, r.helper3);
    SubZero(f, alpha, r.delta0);
    SubZero(f, alpha, r.delta1);
  }

  lemma {:induction false} NoRequestPole<E(!new)>(f: Field<E>, alpha: E, rows: seq<Row<E>>)
    requires IsField(f) && AllNonZero(f, alpha, rows)
    ensures NoPole(alpha, AllRequests(f, rows))
  {
    if rows != [] {
      var init, r := rows[..|rows| - 1], rows[|rows| - 1];
      NoRequestPole(f, alpha, init);
      RowNoPole(f, alpha, r);
      NoPoleConcat(alpha, AllRequests(f, init), Requests(f, r));
    }
  }

  lemma NoPoleConcat<E>(alpha: E, xs: seq<Term<E>>, ys: seq<Term<E>>)
    requires NoPole(alpha, xs) && NoPole(alpha, ys)
    ensures NoPole(alpha, xs + ys)
  {
  }

  /** The bus column of a challenge meets the constraints and is one at both ends. */
  ghost predicate BusAccepted<E>(f: Field<E>, alpha: E, rows: seq<Row<E>>, bs: seq<E>) {
    AllNonZero(f, alpha, rows) && BusHolds(f, alpha, rows, bs) && bs[0] == f.one && bs[|rows|] == f.one
  }

  /** So many ones do not add up to zero. */
  ghost predicate NoSmallMultiple<E>(f: Field<E>, bound: nat) {
    forall n: nat :: 0 < n <= bound ==> Multiple(f, n) != f.zero
  }

  ghost predicate EachAccepted<E>(f: Field<E>, alphas: seq<E>, rows: seq<Row<E>>, buses: seq<seq<E>>) {
    |buses| == |alphas| && forall i :: 0 <= i < |alphas| ==> BusAccepted(f, alphas[i], rows, buses[i])
  }

  lemma AcceptedVanishes<E(!new)>(f: Field<E>, alphas: seq<E>, rows: seq<Row<E>>, buses: seq<seq<E>>)
    requires IsField(f) && EachAccepted(f, alphas, rows, buses)
    ensures Vanishes(f, alphas, BusTerms(f, rows))
  {
    forall i | 0 <= i < |alphas|
      ensures NoPole(alphas[i], BusTerms(f, rows)) && Fractions(f, alphas[i], BusTerms(f, rows)) == f.zero
    {
      assert BusAccepted(f, alphas[i], rows, buses[i]);
      NoBusPole(f, alphas[i], rows);
      BusBalances(f, alphas[i], rows, buses[i]);
      BalancedVanishes(f, alphas[i], rows);
    }
  }

  /**
   If the bus is accepted for as many challenges as there are denominators, every value looked up by
   the stack or the memory is in the value column.
   */
  lemma LookupsInColumn<E(!new)>(f: Field<E>, alphas: seq<E>, rows: seq<Row<E>>, buses: seq<seq<E>>, i: nat)
    requires IsField(f) && NoSmallMultiple(f, 6 * |rows|) && BinaryRows(f, rows)
    requires DistinctChallenges(alphas) && EachAccepted(f, alphas, rows, buses) && 7 * |rows| <= |alphas|
    requires i < 6 * |rows| && AllRequests(f, rows)[i].0 == f.one
    ensures exists j :: 0 <= j < |rows| && rows[j].v == AllRequests(f, rows)[i].1
  {
    var ts, u := AllRequests(f, rows), AllRequests(f, rows)[i].1;
    AcceptedVanishes(f, alphas, rows, buses);
    CoefficientsCancel(f, alphas, BusTerms(f, rows), u);
    CoefficientConcat(f, Supplies(rows), Negated(f, ts), u);
    RequestsBinary(f, rows);
    CountedCoefficient(f, ts, u);
    CountPositive(f, ts, i);
    if u !in Points(Supplies(rows)) {
      NoCoefficientAt(f, Supplies(rows), u);
      NegOnlyZero(f, Multiple(f, Count(f, ts, u)));
      assert false;
    }
    var j :| 0 <= j < |rows| && Supplies(rows)[j].1 == u;
    assert rows[j].v == u;
  }

  /**
   The soundness error of a single challenge: if a value looked up is not in the column, fewer than
   seven challenges per row let the bus pass.
   */
  lemma FewChallengesPass<E(!new)>(f: Field<E>, alphas: seq<E>, rows: seq<Row<E>>, buses: seq<seq<E>>, i: nat)
    requires IsField(f) && NoSmallMultiple(f, 6 * |rows|) && BinaryRows(f, rows)
    requires i < 6 * |rows| && AllRequests(f, rows)[i].0 == f.one
    requires forall j :: 0 <= j < |rows| ==> rows[j].v != AllRequests(f, rows)[i].1
    requires DistinctChallenges(alphas) && EachAccepted(f, alphas, rows, buses)
    ensures |alphas| < 7 * |rows|
  {
    if 7 * |rows| <= |alphas| {
      LookupsInColumn(f, alphas, rows, buses, i);
    }
  }

  lemma NegOnlyZero<E(!new)>(f: Field<E>, x: E)
    requires IsField(f) && f.add(f.zero, f.neg(x)) == f.zero
    ensures x == f.zero
  {
    assert AddCommutes(f, f.zero, f.neg(x)) && ZeroIsNeutral(f, f.neg(x));
    assert NegCancels(f, x) && ZeroIsNeutral(f, x);
  }

  /** Together with the constraints on the column: every value looked up is a 16-bit integer. */
  lemma LookupsAreSixteenBit<E(!new)>(f: Field<E>, alphas: seq<E>, rows: seq<Row<E>>, buses: seq<seq<E>>, i: nat,
                                      g: Field<Felt>, vs: seq<Felt>, embed: Felt -> E)
    requires IsField(f) && NoSmallMultiple(f, 6 * |rows|) && BinaryRows(f, rows)
    requires DistinctChallenges(alphas) && EachAccepted(f, alphas, rows, buses) && 7 * |rows| <= |alphas|
    requires PrimeField(g) && |vs| * MAX_STEP < MODULUS && Accepted(g, vs)
    requires |rows| <= |vs| && forall j :: 0 <= j < |rows| ==> rows[j].v == embed(vs[j])
    requires i < 6 * |rows| && AllRequests(f, rows)[i].0 == f.one
    ensures exists x: Felt :: x <= TOP && AllRequests(f, rows)[i].1 == embed(x)
  {
    LookupsInColumn(f, alphas, rows, buses, i);
    RangeSound(g, vs);
    var j :| 0 <= j < |rows| && rows[j].v == AllRequests(f, rows)[i].1;
    assert vs[j] <= vs[j] <= TOP && AllRequests(f, rows)[i].1 == embed(vs[j]);
  }

  // The columns that are looked up

  /** Each row makes six lookups, in order. */
  lemma {:induction false} RequestsOfRow<E>(f: Field<E>, rows: seq<Row<E>>, j: nat, k: nat)
    requires j < |rows| && k < 6
    ensures AllRequests(f, rows)[6 * j + k] == Requests(f, rows[j])[k]
  {
    var init := rows[..|rows| - 1];
    if j < |init| {
      RequestsOfRow(f, init, j, k);
    }
  }

  ghost predicate InColumn<E>(rows: seq<Row<E>>, u: E) {
    exists i :: 0 <= i < |rows| && rows[i].v == u
  }

  /** The bus passes for seven challenges a row, and so few ones as there are lookups do not add up to zero. */
  ghost predicate PassesOften<E(!new)>(f: Field<E>, alphas: seq<E>, rows: seq<Row<E>>, buses: seq<seq<E>>) {
    && IsField(f) && NoSmallMultiple(f, 6 * |rows|) && BinaryRows(f, rows)
    && DistinctChallenges(alphas) && EachAccepted(f, alphas, rows, buses) && 7 * |rows| <= |alphas|
  }

  /** On rows with op codes 100xxxx the four helpers are in the column, on rows with selectors 110 the two deltas. */
  lemma ColumnsInColumn<E(!new)>(f: Field<E>, alphas: seq<E>, rows: seq<Row<E>>, buses: seq<seq<E>>, j: nat)
    requires PassesOften(f, alphas, rows, buses) && j < |rows|
    ensures var r := rows[j];
            r.opBit6 == f.one && r.opBit5 == f.zero && r.opBit4 == f.zero ==>
              InColumn(rows, r.helper0) && InColumn(rows, r.helper1) && InColumn(rows, r.helper2) && InColumn(rows, r.helper3)
    ensures var r := rows[j];
            r.selector0 == f.one && r.selector1 == f.one && r.selector2 == f.zero ==>
              InColumn(rows, r.delta0) && InColumn(rows, r.delta1)
  {
    var r := rows[j];
    assert BinaryRow(f, r);
    FlagsMeaning(f, r);
    forall k: nat | k < 6 && Requests(f, r)[k].0 == f.one
      ensures InColumn(rows, Requests(f, r)[k].1)
    {
      RequestsOfRow(f, rows, j, k);
      LookupsInColumn(f, alphas, rows, buses, 6 * j + k);
    }
    ghost var ts := Requests(f, r);
    assert ts[0].1 == r.helper0 && ts[1].1 == r.helper1 && ts[2].1 == r.helper2 && ts[3].1 == r.helper3;
    assert ts[4].1 == r.delta0 && ts[5].1 == r.delta1;
  }

  /** The image of a 16-bit integer. */
  ghost predicate SixteenBit<E>(embed: Felt -> E, u: E) {
    exists x: Felt :: x <= 65535 && u == embed(x)
  }

  /** Together with the constraints on the column: these columns hold 16-bit integers on such rows. */
  lemma ColumnsAreSixteenBit<E(!new)>(f: Field<E>, alphas: seq<E>, rows: seq<Row<E>>, buses: seq<seq<E>>, j: nat,
                                      g: Field<Felt>, vs: seq<Felt>, embed: Felt -> E)
    requires PassesOften(f, alphas, rows, buses) && j < |rows|
    requires PrimeField(g) && |vs| * MAX_STEP < MODULUS && Accepted(g, vs)
    requires |rows| <= |vs| && forall i :: 0 <= i < |rows| ==> rows[i].v == embed(vs[i])
    ensures var r := rows[j];
            r.opBit6 == f.one && r.opBit5 == f.zero && r.opBit4 == f.zero ==>
              && SixteenBit(embed, r.helper0) && SixteenBit(embed, r.helper1)
              && SixteenBit(embed, r.helper2) && SixteenBit(embed, r.helper3)
    ensures var r := rows[j];
            r.selector0 == f.one && r.selector1 == f.one && r.selector2 == f.zero ==>
              SixteenBit(embed, r.delta0) && SixteenBit(embed, r.delta1)
  {
    ColumnsInColumn(f, alphas, rows, buses, j);
    RangeSound(g, vs);
    forall u | InColumn(rows, u)
      ensures SixteenBit(embed, u)
    {
      var i :| 0 <= i < |rows| && rows[i].v == u;
      assert vs[i] <= vs[i] <= TOP && u == embed(vs[i]);
    }
  }

  // Multiplicities count lookups

  function Once<E(==)>(a: E, b: E): nat {
    if a == b then 1 else 0
  }

  /** How often a row looks a value up. */
  function RowCount<E(==)>(f: Field<E>, r: Row<E>, u: E): nat {
    (if r.opBit6 == f.one && r.opBit5 == f.zero && r.opBit4 == f.zero
     then Once(r.helper0, u) + Once(r.helper1, u) + Once(r.helper2, u) + Once(r.helper3, u) else 0) +
    (if r.selector0 == f.one && r.selector1 == f.one && r.selector2 == f.zero
     then Once(r.delta0, u) + Once(r.delta1, u) else 0)
  }

  function LookupCount<E(==)>(f: Field<E>, rows: seq<Row<E>>, u: E): nat {
    if rows == [] then 0 else LookupCount(f, rows[..|rows| - 1], u) + RowCount(f, rows[|rows| - 1], u)
  }

  /** The multiplicities given to a value, added up. */
  function Multiplicity<E(==)>(f: Field<E>, rows: seq<Row<E>>, u: E): E {
    if rows == [] then f.zero
    else
      var rest, r := Multiplicity(f, rows[..|rows| - 1], u), rows[|rows| - 1];
      if r.v == u then f.add(rest, r.multiplicity) else rest
  }

  /** The range checker's multiplicities are those of the lookups. */
  ghost predicate Counted<E(!new)>(f: Field<E>, rows: seq<Row<E>>) {
    forall u :: Multiplicity(f, rows, u) == Multiple(f, LookupCount(f, rows, u))
  }

  function One<E(==)>(f: Field<E>, t: Term<E>, d: E): nat {
    if t.1 == d && t.0 == f.one then 1 else 0
  }

  lemma CountSnoc<E>(f: Field<E>, ts: seq<Term<E>>, t: Term<E>, d: E)
    ensures Count(f, ts + [t], d) == Count(f, ts, d) + One(f, t, d)
  {
    assert (ts + [t])[..|ts|] == ts;
  }

  lemma CountThree<E>(f: Field<E>, ts: seq<Term<E>>, a: Term<E>, b: Term<E>, c: Term<E>, d: E)
    ensures Count(f, ts + [a, b, c], d) == Count(f, ts, d) + One(f, a, d) + One(f, b, d) + One(f, c, d)
  {
    CountSnoc(f, ts, a, d);
    CountSnoc(f, ts + [a], b, d);
    CountSnoc(f, ts + [a] + [b], c, d);
    assert ts + [a] + [b] + [c] == ts + [a, b, c];
  }

  lemma {:induction false} CountIs<E(!new)>(f: Field<E>, rows: seq<Row<E>>, u: E)
    requires IsField(f) && BinaryRows(f, rows)
    ensures Count(f, AllRequests(f, rows), u) == LookupCount(f, rows, u)
  {
    if rows != [] {
      var init, r := rows[..|rows| - 1], rows[|rows| - 1];
      CountIs(f, init, u);
      assert BinaryRow(f, r);
      FlagsMeaning(f, r);
      var ts, q := AllRequests(f, init), Requests(f, r);
      CountThree(f, ts, q[0], q[1], q[2], u);
      CountThree(f, ts + [q[0], q[1], q[2]], q[3], q[4], q[5], u);
      assert ts + [q[0], q[1], q[2]] + [q[3], q[4], q[5]] == ts + q;
    }
  }

  lemma {:induction false} MultiplicityIs<E>(f: Field<E>, rows: seq<Row<E>>, u: E)
    ensures CoefficientAt(f, Supplies(rows), u) == Multiplicity(f, rows, u)
  {
    if rows != [] {
      MultiplicityIs(f, rows[..|rows| - 1], u);
      assert Supplies(rows)[..|rows| - 1] == Supplies(rows[..|rows| - 1]);
    }
  }

  /** The coefficient of the whole bus at a value: its multiplicities less its lookups. */
  lemma BusCoefficient<E(!new)>(f: Field<E>, rows: seq<Row<E>>, u: E)
    requires IsField(f) && BinaryRows(f, rows)
    ensures CoefficientAt(f, BusTerms(f, rows), u) == f.Sub(Multiplicity(f, rows, u), Multiple(f, LookupCount(f, rows, u)))
  {
    var ts := AllRequests(f, rows);
    CoefficientConcat(f, Supplies(rows), Negated(f, ts), u);
    RequestsBinary(f, rows);
    CountedCoefficient(f, ts, u);
    CountIs(f, rows, u);
    MultiplicityIs(f, rows, u);
  }

  /** A bus that passes often enough has multiplicities that count the lookups of every value. */
  lemma MultiplicitiesCount<E(!new)>(f: Field<E>, alphas: seq<E>, rows: seq<Row<E>>, buses: seq<seq<E>>)
    requires PassesOften(f, alphas, rows, buses)
    ensures Counted(f, rows)
  {
    AcceptedVanishes(f, alphas, rows, buses);
    forall u
      ensures Multiplicity(f, rows, u) == Multiple(f, LookupCount(f, rows, u))
    {
      CoefficientsCancel(f, alphas, BusTerms(f, rows), u);
      BusCoefficient(f, rows, u);
      SubZero(f, Multiplicity(f, rows, u), Multiple(f, LookupCount(f, rows, u)));
    }
  }

  /** In a list with distinct points the coefficient at a point is that of its term. */
  lemma {:induction false} DistinctCoefficient<E(!new)>(f: Field<E>, ts: seq<Term<E>>, i: nat)
    requires IsField(f) && Distinct(ts) && i < |ts|
    ensures CoefficientAt(f, ts, ts[i].1) == ts[i].0
  {
    var init, t := ts[..|ts| - 1], ts[|ts| - 1];
    assert ts == init + [t];
    DistinctSnoc(init, t);
    if i < |init| {
      DistinctCoefficient(f, init, i);
      assert t.1 != ts[i].1;
    } else {
      NoCoefficientAt(f, init, t.1);
      assert AddCommutes(f, f.zero, t.0) && ZeroIsNeutral(f, t.0);
    }
  }

  lemma {:induction false} ZeroFractions<E(!new)>(f: Field<E>, alpha: E, ts: seq<Term<E>>)
    requires IsField(f) && forall i :: 0 <= i < |ts| ==> ts[i].0 == f.zero
    ensures Fractions(f, alpha, ts) == f.zero
  {
    if ts != [] {
      var t := ts[|ts| - 1];
      ZeroFractions(f, alpha, ts[..|ts| - 1]);
      assert t.0 == f.zero;
      NoZeroDivisors(f, t.0, f.inv(f.Sub(alpha, t.1)));
      assert ZeroIsNeutral(f, f.zero);
    }
  }

  /** The converse of `CoefficientsCancel`: cancelling coefficients make the sum vanish. */
  lemma CancelledVanishes<E(!new)>(f: Field<E>, alpha: E, ts: seq<Term<E>>)
    requires IsField(f) && forall d :: CoefficientAt(f, ts, d) == f.zero
    ensures Fractions(f, alpha, ts) == f.zero
  {
    var gs := Collected(f, ts);
    CollectedMeans(f, ts);
    CollectedSum(f, alpha, ts);
    forall i | 0 <= i < |gs|
      ensures gs[i].0 == f.zero
    {
      DistinctCoefficient(f, gs, i);
      CollectedCoefficient(f, ts, gs[i].1);
    }
    ZeroFractions(f, alpha, gs);
  }

  /** A challenge that is none of the values of a trace. */
  predicate Fresh<E(==)>(alpha: E, rows: seq<Row<E>>) {
    forall i :: 0 <= i < |rows| ==>
      var r := rows[i];
      alpha !in {r.v, r.helper0, r.helper1, r.helper2, r.helper3, r.delta0, r.delta1}
  }

  lemma FreshNonZero<E(!new)>(f: Field<E>, alpha: E, r: Row<E>)
    requires IsField(f) && alpha !in {r.v, r.helper0, r.helper1, r.helper2, r.helper3, r.delta0, r.delta1}
    ensures NonZero(f, Lookups(f, alpha, r))
  {
    SubZero(f, alpha, r.v);
    SubZero(f, alpha, r.helper0);
    SubZero(f, alpha, r.helper1);
    SubZero(f, alpha, r.helper2);
    SubZero(f, alpha, r.helper3);
    SubZero(f, alpha, r.delta0);
    SubZero(f, alpha, r.delta1);
  }

  /** Completeness: multiplicities that count the lookups let the bus pass for every challenge that is no value. */
  lemma CountedPasses<E(!new)>(f: Field<E>, alpha: E, rows: seq<Row<E>>)
    requires IsField(f) && BinaryRows(f, rows) && Counted(f, rows) && Fresh(alpha, rows)
    ensures exists bs :: BusHolds(f, alpha, rows, bs) && bs[0] == f.one && bs[|rows|] == f.one
  {
    forall i | 0 <= i < |rows|
      ensures NonZero(f, Lookups(f, alpha, rows[i]))
    {
      FreshNonZero(f, alpha, rows[i]);
    }
    forall u
      ensures CoefficientAt(f, BusTerms(f, rows), u) == f.zero
    {
      BusCoefficient(f, rows, u);
      SubZero(f, Multiplicity(f, rows, u), Multiple(f, LookupCount(f, rows, u)));
    }
    CancelledVanishes(f, alpha, BusTerms(f, rows));
    VanishesBalanced(f, alpha, rows);
    var bs := BusColumn(f, alpha, rows);
    BusColumnHolds(f, alpha, rows);
    BusBalances(f, alpha, rows, bs);
  }

  /** The converse of `BalancedVanishes`. */
  lemma VanishesBalanced<E(!new)>(f: Field<E>, alpha: E, rows: seq<Row<E>>)
    requires IsField(f) && Fractions(f, alpha, BusTerms(f, rows)) == f.zero
    ensures TotalSupplied(f, alpha, rows) == TotalRequested(f, alpha, rows)
  {
    FractionsConcat(f, alpha, Supplies(rows), Negated(f, AllRequests(f, rows)));
    FractionsNegated(f, alpha, AllRequests(f, rows));
    SuppliesSum(f, alpha, rows);
    RequestsSum(f, alpha, rows);
    SubZero(f, TotalSupplied(f, alpha, rows), TotalRequested(f, alpha, rows));
  }

  /** In the base field so many ones add up to their number, hence not to zero. */
  lemma {:induction false} MultipleIsNumber(f: Field<Felt>, n: nat)
    requires PrimeField(f) && n < MODULUS
    ensures Multiple(f, n) == n
  {
    if n > 0 {
      MultipleIsNumber(f, n - 1);
    }
  }
}
