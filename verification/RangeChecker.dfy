/**
 The range checker of the AIR: a column of values that can only climb from 0 to 65535 in steps of
 powers of three, and the LogUp bus that ties the lookups of stack and memory to that column.
 */
module RangeChecker {
  import opened Mast
  import opened Fields

  // The value column

  const MAX_STEP: nat := 2187
  const TOP: Felt := 65535

  /** Addition is that of the integers modulo the field modulus; nothing is said of products. */
  ghost predicate PrimeField(f: Field<Felt>) {
    && IsField(f) && f.zero == 0 && f.one == 1
    && (forall a: Felt, b: Felt :: f.add(a, b) == (a + b) % MODULUS)
    && (forall a: Felt :: f.neg(a) == (MODULUS - a) % MODULUS)
  }

  /** The transition constraint on the value column, of degree nine in the change of the value. */
  function Constraint(f: Field<Felt>, v: Felt, next: Felt): Felt {
    var change := f.Sub(next, v);
    var upTo1 := f.mul(change, f.Sub(change, f.one));
    var upTo3 := f.mul(upTo1, f.Sub(change, 3));
    var upTo9 := f.mul(upTo3, f.Sub(change, 9));
    var upTo27 := f.mul(upTo9, f.Sub(change, 27));
    var upTo81 := f.mul(upTo27, f.Sub(change, 81));
    var upTo243 := f.mul(upTo81, f.Sub(change, 243));
    var upTo729 := f.mul(upTo243, f.Sub(change, 729));
    f.mul(upTo729, f.Sub(change, 2187))
  }

  /** Zero, or a power of three up to 2187. */
  predicate IsStep(n: int) {
    n in {0, 1, 3, 9, 27, 81, 243, 729, 2187}
  }

  function Pow3(k: nat): nat {
    if k == 0 then 1 else 3 * Pow3(k - 1)
  }

  /** The steps are zero and the first eight powers of three. */
  lemma StepIsPower(n: int)
    ensures IsStep(n) <==> n == 0 || exists k: nat :: k <= 7 && n == Pow3(k)
  {
    assert Pow3(0) == 1 && Pow3(1) == 3 && Pow3(2) == 9 && Pow3(3) == 27;
    assert Pow3(4) == 3 * Pow3(3) && Pow3(5) == 3 * Pow3(4) && Pow3(6) == 3 * Pow3(5) && Pow3(7) == 3 * Pow3(6);
  }

  /** What the boundary and transition constraints accept. */
  predicate Accepted(f: Field<Felt>, vs: seq<Felt>) {
    && vs != [] && vs[0] == 0 && vs[|vs| - 1] == TOP
    && forall i :: 0 <= i < |vs| - 1 ==> Constraint(f, vs[i], vs[i + 1]) == 0
  }

  /** What they are meant to accept: integers climbing from 0 to 65535 in allowed steps. */
  predicate Climbs(vs: seq<Felt>) {
    && vs != [] && vs[0] == 0 && vs[|vs| - 1] == TOP
    && forall i :: 0 <= i < |vs| - 1 ==> IsStep(vs[i + 1] as int - vs[i] as int)
  }

  lemma ProductZero(f: Field<Felt>, product: Felt, change: Felt, step: Felt)
    requires IsField(f) && f.zero == 0
    ensures f.mul(product, f.Sub(change, step)) == 0 <==> product == 0 || change == step
  {
    NoZeroDivisors(f, product, f.Sub(change, step));
    SubZero(f, change, step);
  }

  /** The constraint holds exactly if the change, as a field element, is an allowed step. */
  lemma ConstraintMeaning(f: Field<Felt>, v: Felt, next: Felt)
    requires IsField(f) && f.zero == 0 && f.one == 1
    ensures Constraint(f, v, next) == 0 <==> IsStep(f.Sub(next, v) as int)
  {
    var change := f.Sub(next, v);
    var upTo1 := f.mul(change, f.Sub(change, f.one));
    var upTo3 := f.mul(upTo1, f.Sub(change, 3));
    var upTo9 := f.mul(upTo3, f.Sub(change, 9));
    var upTo27 := f.mul(upTo9, f.Sub(change, 27));
    var upTo81 := f.mul(upTo27, f.Sub(change, 81));
    var upTo243 := f.mul(upTo81, f.Sub(change, 243));
    var upTo729 := f.mul(upTo243, f.Sub(change, 729));
    ProductZero(f, change, change, f.one);
    ProductZero(f, upTo1, change, 3);
    ProductZero(f, upTo3, change, 9);
    ProductZero(f, upTo9, change, 27);
    ProductZero(f, upTo27, change, 81);
    ProductZero(f, upTo81, change, 243);
    ProductZero(f, upTo243, change, 729);
    ProductZero(f, upTo729, change, 2187);
  }

  lemma SubIsDifference(f: Field<Felt>, a: Felt, b: Felt)
    requires PrimeField(f)
    ensures f.Sub(a, b) == if b <= a then a - b else a - b + MODULUS
  {
    assert f.Sub(a, b) == (a + f.neg(b)) % MODULUS;
    if b > 0 {
      assert f.neg(b) == MODULUS - b;
    }
  }

  /** In the lower part of the field, an allowed change is an allowed difference of integers. */
  lemma StepWithoutWrap(f: Field<Felt>, v: Felt, next: Felt)
    requires PrimeField(f) && v + MAX_STEP < MODULUS
    ensures Constraint(f, v, next) == 0 <==> IsStep(next as int - v as int)
  {
    ConstraintMeaning(f, v, next);
    SubIsDifference(f, next, v);
  }

  lemma {:induction false} AcceptedClimbs(f: Field<Felt>, vs: seq<Felt>, i: nat)
    requires PrimeField(f) && |vs| * MAX_STEP < MODULUS
    requires Accepted(f, vs) && i < |vs|
    ensures vs[i] <= i * MAX_STEP
    ensures forall j :: 0 <= j < i ==> IsStep(vs[j + 1] as int - vs[j] as int)
  {
    if i > 0 {
      AcceptedClimbs(f, vs, i - 1);
      assert vs[i - 1] + MAX_STEP <= |vs| * MAX_STEP;
      StepWithoutWrap(f, vs[i - 1], vs[i]);
    }
  }

  lemma {:induction false} ClimbsMonotone(vs: seq<Felt>, i: nat, j: nat)
    requires Climbs(vs) && i <= j < |vs|
    ensures vs[i] <= vs[j]
    decreases j - i
  {
    if i < j {
      ClimbsMonotone(vs, i, j - 1);
      assert IsStep(vs[j - 1 + 1] as int - vs[j - 1] as int);
    }
  }

  /**
   Range soundness and completeness: a trace that is not too long for the field is accepted exactly
   if it climbs, and then the column never decreases and every value is a 16-bit integer.
   */
  lemma RangeSound(f: Field<Felt>, vs: seq<Felt>)
    requires PrimeField(f) && |vs| * MAX_STEP < MODULUS
    ensures Accepted(f, vs) <==> Climbs(vs)
    ensures Accepted(f, vs) ==> forall i, j :: 0 <= i <= j < |vs| ==> vs[i] <= vs[j] <= TOP
  {
    if Accepted(f, vs) {
      AcceptedClimbs(f, vs, |vs| - 1);
    }
    if Climbs(vs) {
      forall i, j | 0 <= i <= j < |vs|
        ensures vs[i] <= vs[j] <= TOP
      {
        ClimbsMonotone(vs, i, j);
        ClimbsMonotone(vs, j, |vs| - 1);
      }
      forall i | 0 <= i < |vs| - 1
        ensures Constraint(f, vs[i], vs[i + 1]) == 0
      {
        assert vs[i] <= TOP;
        StepWithoutWrap(f, vs[i], vs[i + 1]);
      }
    }
  }

  // The bus

  /** The columns of a row that the bus depends on. */
  datatype Row<!E> = Row(
    opBit4: E, opBit5: E, opBit6: E,
    helper0: E, helper1: E, helper2: E, helper3: E,
    selector0: E, selector1: E, selector2: E,
    delta0: E, delta1: E,
    multiplicity: E, v: E)

  function Not<E>(f: Field<E>, a: E): E {
    f.Sub(f.one, a)
  }

  /** Set for stack operations with range checks. */
  function StackFlag<E>(f: Field<E>, r: Row<E>): E {
    f.mul(f.mul(r.opBit6, Not(f, r.opBit5)), Not(f, r.opBit4))
  }

  /** Set for rows of the memory chiplet. */
  function MemoryFlag<E>(f: Field<E>, r: Row<E>): E {
    f.mul(f.mul(r.selector0, r.selector1), Not(f, r.selector2))
  }

  lemma BinaryProduct<E(!new)>(f: Field<E>, a: E, b: E, c: E)
    requires IsField(f)
    requires a in {f.zero, f.one} && b in {f.zero, f.one} && c in {f.zero, f.one}
    ensures f.mul(f.mul(a, b), c) == if a == b == c == f.one then f.one else f.zero
  {
    assert OneIsNeutral(f, f.one);
    NoZeroDivisors(f, a, b);
    NoZeroDivisors(f, f.mul(a, b), c);
  }

  lemma BinaryNot<E(!new)>(f: Field<E>, a: E)
    requires IsField(f) && a in {f.zero, f.one}
    ensures Not(f, a) == if a == f.one then f.zero else f.one
  {
    SubZero(f, f.one, a);
    SubAdds(f, f.one, f.zero);
    assert ZeroIsNeutral(f, f.Sub(f.one, f.zero));
  }

  /** On binary columns the flags are one for the op codes 100xxxx and the selectors 110, else zero. */
  lemma FlagsMeaning<E(!new)>(f: Field<E>, r: Row<E>)
    requires IsField(f)
    requires {r.opBit4, r.opBit5, r.opBit6, r.selector0, r.selector1, r.selector2} <= {f.zero, f.one}
    ensures StackFlag(f, r) == if r.opBit6 == f.one && r.opBit5 == r.opBit4 == f.zero then f.one else f.zero
    ensures MemoryFlag(f, r) == if r.selector0 == r.selector1 == f.one && r.selector2 == f.zero then f.one else f.zero
  {
    BinaryNot(f, r.opBit4);
    BinaryNot(f, r.opBit5);
    BinaryNot(f, r.selector2);
    BinaryProduct(f, r.opBit6, Not(f, r.opBit5), Not(f, r.opBit4));
    BinaryProduct(f, r.selector0, r.selector1, Not(f, r.selector2));
  }

  /** The denominators: for the value, for four stack lookups and for two memory lookups. */
  datatype Denominators<!E> = Denominators(rc: E, sv0: E, sv1: E, sv2: E, sv3: E, mv0: E, mv1: E) {
    function Stack(): seq<E> {
      [sv0, sv1, sv2, sv3]
    }

    function All(): seq<E> {
      [rc, sv0, sv1, sv2, sv3, mv0, mv1]
    }
  }

  function Lookups<E>(f: Field<E>, alpha: E, r: Row<E>): Denominators<E> {
    Denominators(f.Sub(alpha, r.v),
                 f.Sub(alpha, r.helper0), f.Sub(alpha, r.helper1), f.Sub(alpha, r.helper2), f.Sub(alpha, r.helper3),
                 f.Sub(alpha, r.delta0), f.Sub(alpha, r.delta1))
  }

  predicate NonZero<E(==)>(f: Field<E>, d: Denominators<E>) {
    forall i :: 0 <= i < |d.All()| ==> d.All()[i] != f.zero
  }

  /** The transition constraint on the bus column, all denominators multiplied out. */
  function BusConstraint<E>(f: Field<E>, alpha: E, r: Row<E>, b: E, next: E): E {
    var d := Lookups(f, alpha, r);
    var memory := f.mul(d.mv0, d.mv1);
    var stack := f.mul(f.mul(f.mul(d.sv0, d.sv1), d.sv2), d.sv3);
    var all := f.mul(f.mul(d.rc, stack), memory);
    var sflag := f.mul(f.mul(d.rc, memory), StackFlag(f, r));
    var mflag := f.mul(f.mul(d.rc, stack), MemoryFlag(f, r));
    var rc := f.mul(f.mul(stack, memory), r.multiplicity);
    var s0 := f.mul(f.mul(f.mul(sflag, d.sv1), d.sv2), d.sv3);
    var s1 := f.mul(f.mul(f.mul(sflag, d.sv0), d.sv2), d.sv3);
    var s2 := f.mul(f.mul(f.mul(sflag, d.sv0), d.sv1), d.sv3);
    var s3 := f.mul(f.mul(f.mul(sflag, d.sv0), d.sv1), d.sv2);
    var m0 := f.mul(mflag, d.mv1);
    var m1 := f.mul(mflag, d.mv0);
    f.Sub(f.mul(next, all), Minus(f, f.add(f.mul(b, all), rc), [s0, s1, s2, s3, m0, m1]))
  }

  /** Subtracts the terms from left to right. */
  function Minus<E>(f: Field<E>, a: E, terms: seq<E>): E {
    if terms == [] then a else f.Sub(Minus(f, a, terms[..|terms| - 1]), terms[|terms| - 1])
  }

  /** What the range checker supplies in a row. */
  function Supplied<E>(f: Field<E>, alpha: E, r: Row<E>): E {
    f.Div(r.multiplicity, Lookups(f, alpha, r).rc)
  }

  /** What stack and memory look up in a row, each with multiplicity one. */
  function Requested<E>(f: Field<E>, alpha: E, r: Row<E>): seq<E> {
    var d, s, m := Lookups(f, alpha, r), StackFlag(f, r), MemoryFlag(f, r);
    [f.Div(s, d.sv0), f.Div(s, d.sv1), f.Div(s, d.sv2), f.Div(s, d.sv3), f.Div(m, d.mv0), f.Div(m, d.mv1)]
  }

  /** The running sum with its fractions. */
  function NextBus<E>(f: Field<E>, alpha: E, r: Row<E>, b: E): E {
    Minus(f, f.add(b, Supplied(f, alpha, r)), Requested(f, alpha, r))
  }

  /** A term without one denominator, but with a coefficient, is a fraction of the whole. */
  lemma TermIsFraction<E(!new)>(f: Field<E>, factors: seq<E>, ds: seq<E>, d: E, c: E)
    requires IsField(f) && d != f.zero
    requires multiset(factors + [d]) == multiset(ds + [c])
    ensures Product(f, factors) == f.mul(Product(f, ds), f.Div(c, d))
  {
    ProductPermutes(f, factors + [d], ds + [c]);
    ProductSnoc(f, factors, d);
    ProductSnoc(f, ds, c);
    Cleared(f, Product(f, factors), d, Product(f, ds), c);
  }

  lemma ProductOfTwo<E(!new)>(f: Field<E>, a: E, b: E)
    requires IsField(f)
    ensures Product(f, [a, b]) == f.mul(a, b)
  {
    ProductOne(f, a);
    assert [a, b] == [a] + [b];
    ProductSnoc(f, [a], b);
  }

  /** Three more factors. */
  lemma ProductOfMore<E>(f: Field<E>, xs: seq<E>, a: E, b: E, c: E)
    ensures Product(f, xs + [a, b, c]) == f.mul(f.mul(f.mul(Product(f, xs), a), b), c)
  {
    ProductSnoc(f, xs, a);
    ProductSnoc(f, xs + [a], b);
    ProductSnoc(f, xs + [a] + [b], c);
    assert xs + [a] + [b] + [c] == xs + [a, b, c];
  }

  lemma ProductOfFour<E(!new)>(f: Field<E>, a: E, b: E, c: E, d: E)
    requires IsField(f)
    ensures Product(f, [a, b, c, d]) == f.mul(f.mul(f.mul(a, b), c), d)
  {
    ProductOne(f, a);
    ProductOfMore(f, [a], b, c, d);
    assert [a] + [b, c, d] == [a, b, c, d];
  }

  /** The product of the denominators, as the constraint computes it. */
  lemma AllDenominators<E(!new)>(f: Field<E>, d: Denominators<E>)
    requires IsField(f)
    ensures var memory, stack := f.mul(d.mv0, d.mv1), f.mul(f.mul(f.mul(d.sv0, d.sv1), d.sv2), d.sv3);
            f.mul(f.mul(d.rc, stack), memory) == Product(f, d.All())
  {
    ProductOne(f, d.rc);
    ProductOfTwo(f, d.mv0, d.mv1);
    ProductOfFour(f, d.sv0, d.sv1, d.sv2, d.sv3);
    ProductConcat(f, [d.rc], [d.sv0, d.sv1, d.sv2, d.sv3]);
    ProductConcat(f, [d.rc] + [d.sv0, d.sv1, d.sv2, d.sv3], [d.mv0, d.mv1]);
    assert [d.rc] + [d.sv0, d.sv1, d.sv2, d.sv3] + [d.mv0, d.mv1] == d.All();
  }

  lemma RangeFactors<E>(rc: E, svs: seq<E>, mvs: seq<E>, c: E)
    ensures multiset(svs + mvs + [c] + [rc]) == multiset([rc] + svs + mvs + [c])
  {
  }

  lemma StackFactors<E>(rc: E, mvs: seq<E>, flag: E, before: seq<E>, sv: E, after: seq<E>)
    ensures multiset([rc] + mvs + [flag] + (before + after) + [sv]) == multiset([rc] + (before + [sv] + after) + mvs + [flag])
  {
  }

  lemma MemoryFactors<E>(start: seq<E>, flag: E, mv: E, other: E, mvs: seq<E>)
    requires multiset([mv, other]) == multiset(mvs)
    ensures multiset(start + [flag] + [other] + [mv]) == multiset(start + mvs + [flag])
  {
    assert start + [flag] + [other] + [mv] == start + [flag] + ([other] + [mv]);
    assert multiset([other] + [mv]) == multiset([mv, other]);
  }

  /** The term of the range checker's own value. */
  lemma RangeTerm<E(!new)>(f: Field<E>, d: Denominators<E>, c: E)
    requires IsField(f) && d.rc != f.zero
    ensures var memory, stack := f.mul(d.mv0, d.mv1), f.mul(f.mul(f.mul(d.sv0, d.sv1), d.sv2), d.sv3);
            f.mul(f.mul(stack, memory), c) == f.mul(Product(f, d.All()), f.Div(c, d.rc))
  {
    ProductOfTwo(f, d.mv0, d.mv1);
    ProductOfFour(f, d.sv0, d.sv1, d.sv2, d.sv3);
    ProductConcat(f, [d.sv0, d.sv1, d.sv2, d.sv3], [d.mv0, d.mv1]);
    ProductSnoc(f, d.Stack() + [d.mv0, d.mv1], c);
    RangeTermFactors(f, d.rc, d.Stack(), [d.mv0, d.mv1], c);
    assert d.All() == [d.rc] + d.Stack() + [d.mv0, d.mv1];
  }

  lemma RangeTermFactors<E(!new)>(f: Field<E>, rc: E, svs: seq<E>, mvs: seq<E>, c: E)
    requires IsField(f) && rc != f.zero
    ensures Product(f, svs + mvs + [c]) == f.mul(Product(f, [rc] + svs + mvs), f.Div(c, rc))
  {
    RangeFactors(rc, svs, mvs, c);
    TermIsFraction(f, svs + mvs + [c], [rc] + svs + mvs, rc, c);
  }

  /** A stack term, of the `i`th lookup; the others multiply it in order. */
  lemma StackTerm<E(!new)>(f: Field<E>, d: Denominators<E>, flag: E, i: nat, a: E, b: E, c: E)
    requires IsField(f) && i < 4 && d.Stack()[i] != f.zero
    requires d.Stack()[..i] + d.Stack()[i + 1..] == [a, b, c]
    ensures var sflag := f.mul(f.mul(d.rc, f.mul(d.mv0, d.mv1)), flag);
            f.mul(f.mul(f.mul(sflag, a), b), c) == f.mul(Product(f, d.All()), f.Div(flag, d.Stack()[i]))
  {
    ProductOne(f, d.rc);
    ProductOfTwo(f, d.mv0, d.mv1);
    ProductConcat(f, [d.rc], [d.mv0, d.mv1]);
    ProductSnoc(f, [d.rc] + [d.mv0, d.mv1], flag);
    ProductOfMore(f, [d.rc] + [d.mv0, d.mv1] + [flag], a, b, c);
    StackTermFactors(f, d.rc, d.Stack(), [d.mv0, d.mv1], flag, i);
    assert d.All() == [d.rc] + d.Stack() + [d.mv0, d.mv1];
  }

  lemma StackTermFactors<E(!new)>(f: Field<E>, rc: E, svs: seq<E>, mvs: seq<E>, flag: E, i: nat)
    requires IsField(f) && i < |svs| && svs[i] != f.zero
    ensures Product(f, [rc] + mvs + [flag] + (svs[..i] + svs[i + 1..])) == f.mul(Product(f, [rc] + svs + mvs), f.Div(flag, svs[i]))
  {
    StackFactors(rc, mvs, flag, svs[..i], svs[i], svs[i + 1..]);
    assert svs == svs[..i] + [svs[i]] + svs[i + 1..];
    TermIsFraction(f, [rc] + mvs + [flag] + (svs[..i] + svs[i + 1..]), [rc] + svs + mvs, svs[i], flag);
  }

  /** A memory term: `mv` is its own denominator, `other` the other one. */
  lemma MemoryTerm<E(!new)>(f: Field<E>, d: Denominators<E>, flag: E, mv: E, other: E)
    requires IsField(f) && mv != f.zero
    requires multiset([mv, other]) == multiset([d.mv0, d.mv1])
    ensures var stack := f.mul(f.mul(f.mul(d.sv0, d.sv1), d.sv2), d.sv3);
            f.mul(f.mul(f.mul(d.rc, stack), flag), other) == f.mul(Product(f, d.All()), f.Div(flag, mv))
  {
    var svs := [d.sv0, d.sv1, d.sv2, d.sv3];
    ProductOne(f, d.rc);
    ProductOfFour(f, d.sv0, d.sv1, d.sv2, d.sv3);
    ProductConcat(f, [d.rc], svs);
    ProductSnoc(f, [d.rc] + svs, flag);
    ProductSnoc(f, [d.rc] + svs + [flag], other);
    MemoryTermFactors(f, [d.rc] + svs, [d.mv0, d.mv1], flag, mv, other);
    assert d.All() == [d.rc] + svs + [d.mv0, d.mv1];
  }

  lemma MemoryTermFactors<E(!new)>(f: Field<E>, start: seq<E>, mvs: seq<E>, flag: E, mv: E, other: E)
    requires IsField(f) && mv != f.zero && multiset([mv, other]) == multiset(mvs)
    ensures Product(f, start + [flag] + [other]) == f.mul(Product(f, start + mvs), f.Div(flag, mv))
  {
    MemoryFactors(start, flag, mv, other, mvs);
    TermIsFraction(f, start + [flag] + [other], start + mvs, mv, flag);
  }

  /** The terms are the common factor times the fractions. */
  ghost predicate Scaled<E>(f: Field<E>, all: E, terms: seq<E>, fractions: seq<E>) {
    |terms| == |fractions| && forall i :: 0 <= i < |terms| ==> terms[i] == f.mul(all, fractions[i])
  }

  lemma {:induction false} MinusScaled<E(!new)>(f: Field<E>, all: E, a: E, terms: seq<E>, fractions: seq<E>)
    requires IsField(f) && Scaled(f, all, terms, fractions)
    ensures Minus(f, f.mul(all, a), terms) == f.mul(all, Minus(f, a, fractions))
  {
    if terms != [] {
      var n := |terms| - 1;
      MinusScaled(f, all, a, terms[..n], fractions[..n]);
      MulSub(f, all, Minus(f, a, fractions[..n]), fractions[n]);
    }
  }

  lemma OthersOfFour<E>(a: E, b: E, c: E, d: E)
    ensures var all := [a, b, c, d];
            && all[..0] + all[1..] == [b, c, d] && all[..1] + all[2..] == [a, c, d]
            && all[..2] + all[3..] == [a, b, d] && all[..3] + all[4..] == [a, b, c]
  {
  }

  lemma AllScaled<E(!new)>(f: Field<E>, alpha: E, r: Row<E>)
    requires IsField(f) && NonZero(f, Lookups(f, alpha, r))
    ensures var d := Lookups(f, alpha, r);
            var memory, stack := f.mul(d.mv0, d.mv1), f.mul(f.mul(f.mul(d.sv0, d.sv1), d.sv2), d.sv3);
            var sflag, mflag := f.mul(f.mul(d.rc, memory), StackFlag(f, r)), f.mul(f.mul(d.rc, stack), MemoryFlag(f, r));
            Scaled(f, Product(f, d.All()),
                   [f.mul(f.mul(f.mul(sflag, d.sv1), d.sv2), d.sv3), f.mul(f.mul(f.mul(sflag, d.sv0), d.sv2), d.sv3),
                    f.mul(f.mul(f.mul(sflag, d.sv0), d.sv1), d.sv3), f.mul(f.mul(f.mul(sflag, d.sv0), d.sv1), d.sv2),
                    f.mul(mflag, d.mv1), f.mul(mflag, d.mv0)],
                   Requested(f, alpha, r))
  {
    var d := Lookups(f, alpha, r);
    assert d.All()[1] == d.sv0 && d.All()[2] == d.sv1 && d.All()[3] == d.sv2 && d.All()[4] == d.sv3;
    assert d.All()[5] == d.mv0 && d.All()[6] == d.mv1;
    OthersOfFour(d.sv0, d.sv1, d.sv2, d.sv3);
    StackTerm(f, d, StackFlag(f, r), 0, d.sv1, d.sv2, d.sv3);
    StackTerm(f, d, StackFlag(f, r), 1, d.sv0, d.sv2, d.sv3);
    StackTerm(f, d, StackFlag(f, r), 2, d.sv0, d.sv1, d.sv3);
    StackTerm(f, d, StackFlag(f, r), 3, d.sv0, d.sv1, d.sv2);
    assert multiset([d.mv1, d.mv0]) == multiset([d.mv0, d.mv1]);
    MemoryTerm(f, d, MemoryFlag(f, r), d.mv0, d.mv1);
    MemoryTerm(f, d, MemoryFlag(f, r), d.mv1, d.mv0);
  }

  /** Unless a denominator is zero, the constraint is met exactly by the running sum of fractions. */
  lemma BusConstraintMeaning<E(!new)>(f: Field<E>, alpha: E, r: Row<E>, b: E, next: E)
    requires IsField(f) && NonZero(f, Lookups(f, alpha, r))
    ensures BusConstraint(f, alpha, r, b, next) == f.zero <==> next == NextBus(f, alpha, r, b)
  {
    var d := Lookups(f, alpha, r);
    var all := Product(f, d.All());
    AllDenominators(f, d);
    AllScaled(f, alpha, r);
    assert d.All()[0] == d.rc;
    RangeTerm(f, d, r.multiplicity);
    var supplied := Supplied(f, alpha, r);
    assert MulCommutes(f, b, all) && Distributes(f, all, b, supplied);
    var memory, stack := f.mul(d.mv0, d.mv1), f.mul(f.mul(f.mul(d.sv0, d.sv1), d.sv2), d.sv3);
    var sflag, mflag := f.mul(f.mul(d.rc, memory), StackFlag(f, r)), f.mul(f.mul(d.rc, stack), MemoryFlag(f, r));
    var terms := [f.mul(f.mul(f.mul(sflag, d.sv1), d.sv2), d.sv3), f.mul(f.mul(f.mul(sflag, d.sv0), d.sv2), d.sv3),
                  f.mul(f.mul(f.mul(sflag, d.sv0), d.sv1), d.sv3), f.mul(f.mul(f.mul(sflag, d.sv0), d.sv1), d.sv2),
                  f.mul(mflag, d.mv1), f.mul(mflag, d.mv0)];
    MinusScaled(f, all, f.add(b, supplied), terms, Requested(f, alpha, r));
    assert BusConstraint(f, alpha, r, b, next) == f.Sub(f.mul(next, all), f.mul(all, NextBus(f, alpha, r, b)));
    SubZero(f, f.mul(next, all), f.mul(all, NextBus(f, alpha, r, b)));
    assert MulCommutes(f, next, all);
    ProductNonZero(f, d.All());
    if f.mul(all, next) == f.mul(all, NextBus(f, alpha, r, b)) {
      MulCancels(f, all, next, NextBus(f, alpha, r, b));
    }
  }

  // Whole traces

  /** All that the range checker supplies. */
  function TotalSupplied<E>(f: Field<E>, alpha: E, rows: seq<Row<E>>): E {
    if rows == [] then f.zero
    else f.add(TotalSupplied(f, alpha, rows[..|rows| - 1]), Supplied(f, alpha, rows[|rows| - 1]))
  }

  /** All that stack and memory request. */
  function TotalRequested<E>(f: Field<E>, alpha: E, rows: seq<Row<E>>): E {
    if rows == [] then f.zero
    else f.add(TotalRequested(f, alpha, rows[..|rows| - 1]), Sum(f, Requested(f, alpha, rows[|rows| - 1])))
  }

  lemma {:induction false} MinusIsSum<E(!new)>(f: Field<E>, a: E, terms: seq<E>)
    requires IsField(f)
    ensures f.add(Minus(f, a, terms), Sum(f, terms)) == a
  {
    if terms == [] {
      assert ZeroIsNeutral(f, a);
    } else {
      var n := |terms| - 1;
      MinusIsSum(f, a, terms[..n]);
      var x, s, t := Minus(f, a, terms[..n]), Sum(f, terms[..n]), terms[n];
      SubAdds(f, x, t);
      assert AddCommutes(f, s, t) && AddAssociates(f, f.Sub(x, t), t, s);
    }
  }

  /** The bus column over a trace: a constraint between each row and the next. */
  ghost predicate BusHolds<E>(f: Field<E>, alpha: E, rows: seq<Row<E>>, bs: seq<E>) {
    && |bs| == |rows| + 1
    && forall i :: 0 <= i < |rows| ==> BusConstraint(f, alpha, rows[i], bs[i], bs[i + 1]) == f.zero
  }

  ghost predicate AllNonZero<E>(f: Field<E>, alpha: E, rows: seq<Row<E>>) {
    forall i :: 0 <= i < |rows| ==> NonZero(f, Lookups(f, alpha, rows[i]))
  }

  /** The bus is what has been supplied less what has been requested. */
  lemma {:induction false} BusAccumulates<E(!new)>(f: Field<E>, alpha: E, rows: seq<Row<E>>, bs: seq<E>)
    requires IsField(f) && AllNonZero(f, alpha, rows) && BusHolds(f, alpha, rows, bs)
    ensures f.add(bs[|rows|], TotalRequested(f, alpha, rows)) == f.add(bs[0], TotalSupplied(f, alpha, rows))
  {
    if rows != [] {
      var n := |rows| - 1;
      var init, r := rows[..n], rows[n];
      BusAccumulates(f, alpha, init, bs[..n + 1]);
      BusConstraintMeaning(f, alpha, r, bs[n], bs[n + 1]);
      var supplied, requested := Supplied(f, alpha, r), Sum(f, Requested(f, alpha, r));
      var s, q := TotalSupplied(f, alpha, init), TotalRequested(f, alpha, init);
      MinusIsSum(f, f.add(bs[n], supplied), Requested(f, alpha, r));
      assert f.add(bs[n + 1], requested) == f.add(bs[n], supplied);
      assert f.add(bs[n], q) == f.add(bs[0], s);
      // (b' + (q + requested)) == (b' + requested) + q == (b + supplied) + q == (b + q) + supplied
      assert AddCommutes(f, q, requested) && AddAssociates(f, bs[n + 1], requested, q);
      assert AddAssociates(f, bs[n], supplied, q) && AddCommutes(f, supplied, q) && AddAssociates(f, bs[n], q, supplied);
      assert AddAssociates(f, bs[0], s, supplied);
    }
  }

  /**
   The bus balances: a bus that starts at one also ends at one exactly if what the range checker
   supplies is what stack and memory request.
   */
  lemma BusBalances<E(!new)>(f: Field<E>, alpha: E, rows: seq<Row<E>>, bs: seq<E>)
    requires IsField(f) && AllNonZero(f, alpha, rows) && BusHolds(f, alpha, rows, bs)
    requires bs[0] == f.one
    ensures bs[|rows|] == f.one <==> TotalSupplied(f, alpha, rows) == TotalRequested(f, alpha, rows)
  {
    BusAccumulates(f, alpha, rows, bs);
    var s, q, b := TotalSupplied(f, alpha, rows), TotalRequested(f, alpha, rows), bs[|rows|];
    assert AddCommutes(f, f.one, s) && AddCommutes(f, b, q);
    if b == f.one {
      AddCancels(f, s, q, f.one);
    }
    if s == q {
      assert AddCommutes(f, f.one, q);
      AddCancels(f, b, f.one, q);
    }
  }

  /** Whatever the trace, there is a bus column that starts at one and meets the constraints. */
  function BusColumn<E>(f: Field<E>, alpha: E, rows: seq<Row<E>>): (bs: seq<E>)
    ensures |bs| == |rows| + 1 && bs[0] == f.one
  {
    if rows == [] then [f.one]
    else
      var bs := BusColumn(f, alpha, rows[..|rows| - 1]);
      bs + [NextBus(f, alpha, rows[|rows| - 1], bs[|rows| - 1])]
  }

  lemma {:induction false} BusColumnHolds<E(!new)>(f: Field<E>, alpha: E, rows: seq<Row<E>>)
    requires IsField(f) && AllNonZero(f, alpha, rows)
    ensures BusHolds(f, alpha, rows, BusColumn(f, alpha, rows))
  {
    if rows != [] {
      var n := |rows| - 1;
      var bs := BusColumn(f, alpha, rows[..n]);
      BusColumnHolds(f, alpha, rows[..n]);
      BusConstraintMeaning(f, alpha, rows[n], bs[n], NextBus(f, alpha, rows[n], bs[n]));
      forall i | 0 <= i < |rows|
        ensures BusConstraint(f, alpha, rows[i], BusColumn(f, alpha, rows)[i], BusColumn(f, alpha, rows)[i + 1]) == f.zero
      {
        if i < n {
          assert rows[..n][i] == rows[i];
        }
      }
    }
  }
}
