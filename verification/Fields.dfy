/** Fields: their laws, products and sums. */
module Fields {
  datatype Field<!E> = Field(zero: E, one: E, add: (E, E) -> E, mul: (E, E) -> E, neg: E -> E, inv: E -> E) {
    function Sub(a: E, b: E): E {
      add(a, neg(b))
    }

    function Div(a: E, b: E): E {
      mul(a, inv(b))
    }
  }

  // The laws, each a predicate of its own so that proofs invoke them one instance at a time

  predicate AddCommutes<E(==)>(f: Field<E>, a: E, b: E) {
    f.add(a, b) == f.add(b, a)
  }

  predicate AddAssociates<E(==)>(f: Field<E>, a: E, b: E, c: E) {
    f.add(f.add(a, b), c) == f.add(a, f.add(b, c))
  }

  predicate ZeroIsNeutral<E(==)>(f: Field<E>, a: E) {
    f.add(a, f.zero) == a
  }

  predicate NegCancels<E(==)>(f: Field<E>, a: E) {
    f.add(a, f.neg(a)) == f.zero
  }

  predicate MulCommutes<E(==)>(f: Field<E>, a: E, b: E) {
    f.mul(a, b) == f.mul(b, a)
  }

  predicate MulAssociates<E(==)>(f: Field<E>, a: E, b: E, c: E) {
    f.mul(f.mul(a, b), c) == f.mul(a, f.mul(b, c))
  }

  predicate OneIsNeutral<E(==)>(f: Field<E>, a: E) {
    f.mul(a, f.one) == a
  }

  predicate InvCancels<E(==)>(f: Field<E>, a: E) {
    a != f.zero ==> f.mul(a, f.inv(a)) == f.one
  }

  predicate Distributes<E(==)>(f: Field<E>, a: E, b: E, c: E) {
    f.mul(a, f.add(b, c)) == f.add(f.mul(a, b), f.mul(a, c))
  }

  ghost predicate IsField<E(!new)>(f: Field<E>) {
    && f.zero != f.one
    && (forall a, b :: AddCommutes(f, a, b))
    && (forall a, b, c :: AddAssociates(f, a, b, c))
    && (forall a :: ZeroIsNeutral(f, a))
    && (forall a :: NegCancels(f, a))
    && (forall a, b :: MulCommutes(f, a, b))
    && (forall a, b, c :: MulAssociates(f, a, b, c))
    && (forall a :: OneIsNeutral(f, a))
    && (forall a :: InvCancels(f, a))
    && (forall a, b, c :: Distributes(f, a, b, c))
  }

  // Addition

  lemma AddCancels<E(!new)>(f: Field<E>, a: E, b: E, c: E)
    requires IsField(f) && f.add(a, c) == f.add(b, c)
    ensures a == b
  {
    assert AddAssociates(f, a, c, f.neg(c)) && AddAssociates(f, b, c, f.neg(c));
    assert NegCancels(f, c) && ZeroIsNeutral(f, a) && ZeroIsNeutral(f, b);
  }

  /** A difference is zero exactly for equal elements. */
  lemma SubZero<E(!new)>(f: Field<E>, a: E, b: E)
    requires IsField(f)
    ensures f.Sub(a, b) == f.zero <==> a == b
  {
    assert NegCancels(f, b);
    if f.Sub(a, b) == f.zero {
      AddCancels(f, a, b, f.neg(b));
    }
  }

  lemma SubAdds<E(!new)>(f: Field<E>, a: E, b: E)
    requires IsField(f)
    ensures f.add(f.Sub(a, b), b) == a
  {
    assert AddAssociates(f, a, f.neg(b), b) && AddCommutes(f, f.neg(b), b);
    assert NegCancels(f, b) && ZeroIsNeutral(f, a);
  }

  /** (a + b) + (c + d) == (a + c) + (b + d) */
  lemma AddInterchange<E(!new)>(f: Field<E>, a: E, b: E, c: E, d: E)
    requires IsField(f)
    ensures f.add(f.add(a, b), f.add(c, d)) == f.add(f.add(a, c), f.add(b, d))
  {
    assert AddAssociates(f, a, b, f.add(c, d)) && AddAssociates(f, b, c, d);
    assert AddCommutes(f, b, c);
    assert AddAssociates(f, c, b, d) && AddAssociates(f, a, c, f.add(b, d));
  }

  // Multiplication

  lemma MulZero<E(!new)>(f: Field<E>, a: E)
    requires IsField(f)
    ensures f.mul(a, f.zero) == f.zero
  {
    var z := f.mul(a, f.zero);
    assert ZeroIsNeutral(f, f.zero) && Distributes(f, a, f.zero, f.zero);
    assert ZeroIsNeutral(f, z) && AddCommutes(f, z, f.zero);
    AddCancels(f, z, f.zero, z);
  }

  lemma MulCancels<E(!new)>(f: Field<E>, d: E, a: E, b: E)
    requires IsField(f) && d != f.zero && f.mul(d, a) == f.mul(d, b)
    ensures a == b
  {
    var i := f.inv(d);
    assert MulCommutes(f, i, d) && InvCancels(f, d);
    assert MulAssociates(f, i, d, a) && MulAssociates(f, i, d, b);
    assert MulCommutes(f, f.one, a) && MulCommutes(f, f.one, b);
    assert OneIsNeutral(f, a) && OneIsNeutral(f, b);
  }

  lemma NoZeroDivisors<E(!new)>(f: Field<E>, a: E, b: E)
    requires IsField(f)
    ensures f.mul(a, b) == f.zero <==> a == f.zero || b == f.zero
  {
    MulZero(f, a);
    MulZero(f, b);
    assert MulCommutes(f, a, b);
    if a != f.zero && f.mul(a, b) == f.zero {
      MulCancels(f, a, b, f.zero);
    }
  }

  lemma MulNeg<E(!new)>(f: Field<E>, a: E, b: E)
    requires IsField(f)
    ensures f.mul(a, f.neg(b)) == f.neg(f.mul(a, b))
  {
    var p, q := f.mul(a, f.neg(b)), f.mul(a, b);
    assert Distributes(f, a, b, f.neg(b)) && NegCancels(f, b) && NegCancels(f, q);
    MulZero(f, a);
    assert AddCommutes(f, q, p) && AddCommutes(f, q, f.neg(q));
    AddCancels(f, p, f.neg(q), q);
  }

  lemma MulSub<E(!new)>(f: Field<E>, a: E, b: E, c: E)
    requires IsField(f)
    ensures f.mul(a, f.Sub(b, c)) == f.Sub(f.mul(a, b), f.mul(a, c))
  {
    MulNeg(f, a, c);
    assert Distributes(f, a, b, f.neg(c));
  }

  /** Clearing a denominator. */
  lemma Cleared<E(!new)>(f: Field<E>, term: E, d: E, all: E, c: E)
    requires IsField(f) && d != f.zero
    requires f.mul(term, d) == f.mul(all, c)
    ensures term == f.mul(all, f.Div(c, d))
  {
    var i := f.inv(d);
    assert MulAssociates(f, term, d, i) && InvCancels(f, d) && OneIsNeutral(f, term);
    assert MulAssociates(f, all, c, i);
  }

  // Products

  function Product<E>(f: Field<E>, xs: seq<E>): E {
    if xs == [] then f.one else f.mul(Product(f, xs[..|xs| - 1]), xs[|xs| - 1])
  }

  lemma {:induction false} ProductSnoc<E>(f: Field<E>, xs: seq<E>, x: E)
    ensures Product(f, xs + [x]) == f.mul(Product(f, xs), x)
  {
    assert (xs + [x])[..|xs|] == xs;
  }

  lemma ProductOne<E(!new)>(f: Field<E>, x: E)
    requires IsField(f)
    ensures Product(f, [x]) == x
  {
    assert MulCommutes(f, f.one, x) && OneIsNeutral(f, x);
    assert [x] == [] + [x];
    ProductSnoc(f, [], x);
  }

  lemma {:induction false} ProductConcat<E(!new)>(f: Field<E>, xs: seq<E>, ys: seq<E>)
    requires IsField(f)
    ensures Product(f, xs + ys) == f.mul(Product(f, xs), Product(f, ys))
  {
    if ys == [] {
      assert xs + ys == xs;
      assert OneIsNeutral(f, Product(f, xs));
    } else {
      var init, last := ys[..|ys| - 1], ys[|ys| - 1];
      assert xs + ys == (xs + init) + [last];
      ProductSnoc(f, xs + init, last);
      ProductConcat(f, xs, init);
      assert MulAssociates(f, Product(f, xs), Product(f, init), last);
    }
  }

  /** A factor can be moved to the end. */
  lemma ProductExtract<E(!new)>(f: Field<E>, xs: seq<E>, i: nat)
    requires IsField(f) && i < |xs|
    ensures Product(f, xs) == Product(f, xs[..i] + xs[i + 1..] + [xs[i]])
  {
    var a, x, b := xs[..i], xs[i], xs[i + 1..];
    assert xs == (a + [x]) + b;
    ProductConcat(f, a + [x], b);
    ProductConcat(f, a, [x]);
    ProductConcat(f, a, b);
    ProductConcat(f, a + b, [x]);
    var p, q, r := Product(f, a), Product(f, [x]), Product(f, b);
    assert MulAssociates(f, p, q, r) && MulCommutes(f, q, r) && MulAssociates(f, p, r, q);
  }

  /** The order of the factors does not matter. */
  lemma {:induction false} ProductPermutes<E(!new)>(f: Field<E>, xs: seq<E>, ys: seq<E>)
    requires IsField(f) && multiset(xs) == multiset(ys)
    ensures Product(f, xs) == Product(f, ys)
    decreases |xs|
  {
    if xs == [] {
      assert |ys| == |multiset(ys)| == 0;
    } else {
      var init, x := xs[..|xs| - 1], xs[|xs| - 1];
      assert xs == init + [x];
      assert x in multiset(ys);
      var i :| 0 <= i < |ys| && ys[i] == x;
      assert ys == ys[..i] + [x] + ys[i + 1..];
      ProductExtract(f, ys, i);
      var rest := ys[..i] + ys[i + 1..];
      assert multiset(ys) == multiset(rest) + multiset{x};
      assert multiset(init) == multiset(xs) - multiset{x} == multiset(rest);
      ProductPermutes(f, init, rest);
      ProductSnoc(f, init, x);
      ProductSnoc(f, rest, x);
    }
  }

  lemma {:induction false} ProductNonZero<E(!new)>(f: Field<E>, xs: seq<E>)
    requires IsField(f) && forall i :: 0 <= i < |xs| ==> xs[i] != f.zero
    ensures Product(f, xs) != f.zero
  {
    if xs != [] {
      ProductNonZero(f, xs[..|xs| - 1]);
      NoZeroDivisors(f, Product(f, xs[..|xs| - 1]), xs[|xs| - 1]);
    }
  }

  // Sums

  function Sum<E>(f: Field<E>, xs: seq<E>): E {
    if xs == [] then f.zero else f.add(Sum(f, xs[..|xs| - 1]), xs[|xs| - 1])
  }
}
