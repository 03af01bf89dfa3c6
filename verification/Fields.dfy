/** Fields of characteristic two, as the erasure code uses them: subtraction is addition. */
module Fields {
  // The linear algebra of the code is proved for every such field.  The laws are packaged so
  // that a proof meets only the instances it asks for.

  datatype Field<!E> = Field(zero: E, one: E, add: (E, E) -> E, mul: (E, E) -> E, inv: E -> E)
  {
    function Add(a: E, b: E): E { add(a, b) }

    function Mul(a: E, b: E): E { mul(a, b) }

    function Inv(a: E): E { inv(a) }

    ghost predicate AddLaws(a: E, b: E, c: E) {
      && Add(a, b) == Add(b, a)
      && Add(Add(a, b), c) == Add(a, Add(b, c))
      && Add(a, zero) == a
      && Add(a, a) == zero
    }

    ghost predicate MulLaws(a: E, b: E, c: E) {
      && Mul(a, b) == Mul(b, a)
      && Mul(Mul(a, b), c) == Mul(a, Mul(b, c))
      && Mul(a, one) == a
      && Mul(a, Add(b, c)) == Add(Mul(a, b), Mul(a, c))
    }

    ghost predicate InvLaw(a: E) {
      a != zero ==> Mul(a, Inv(a)) == one
    }
  }

  ghost predicate IsField<E(!new)>(f: Field<E>) {
    && f.one != f.zero
    && (forall a, b, c :: f.AddLaws(a, b, c))
    && (forall a, b, c :: f.MulLaws(a, b, c))
    && (forall a :: f.InvLaw(a))
  }

  lemma AddComm<E(!new)>(f: Field<E>, a: E, b: E)
    requires IsField(f)
    ensures f.Add(a, b) == f.Add(b, a)
  {
    assert f.AddLaws(a, b, a);
  }

  lemma AddAssoc<E(!new)>(f: Field<E>, a: E, b: E, c: E)
    requires IsField(f)
    ensures f.Add(f.Add(a, b), c) == f.Add(a, f.Add(b, c))
  {
    assert f.AddLaws(a, b, c);
  }

  lemma AddZero<E(!new)>(f: Field<E>, a: E)
    requires IsField(f)
    ensures f.Add(a, f.zero) == a && f.Add(f.zero, a) == a
  {
    assert f.AddLaws(a, f.zero, a);
  }

  lemma AddSelf<E(!new)>(f: Field<E>, a: E)
    requires IsField(f)
    ensures f.Add(a, a) == f.zero
  {
    assert f.AddLaws(a, a, a);
  }

  /** Adding twice cancels. */
  lemma AddCancel<E(!new)>(f: Field<E>, a: E, b: E)
    requires IsField(f)
    ensures f.Add(f.Add(a, b), b) == a
  {
    AddAssoc(f, a, b, b);
    AddSelf(f, b);
    AddZero(f, a);
  }

  /** A sum is zero exactly when its terms are equal. */
  lemma AddZeroIff<E(!new)>(f: Field<E>, a: E, b: E)
    requires IsField(f)
    ensures f.Add(a, b) == f.zero <==> a == b
  {
    AddCancel(f, a, b);
    AddSelf(f, a);
    AddZero(f, b);
  }

  /** (a + b) + (c + d) == (a + c) + (b + d) */
  lemma AddShuffle<E(!new)>(f: Field<E>, a: E, b: E, c: E, d: E)
    requires IsField(f)
    ensures f.Add(f.Add(a, b), f.Add(c, d)) == f.Add(f.Add(a, c), f.Add(b, d))
  {
    AddAssoc(f, a, b, f.Add(c, d));
    AddAssoc(f, b, c, d);
    AddComm(f, b, c);
    AddAssoc(f, c, b, d);
    AddAssoc(f, a, c, f.Add(b, d));
  }

  lemma MulComm<E(!new)>(f: Field<E>, a: E, b: E)
    requires IsField(f)
    ensures f.Mul(a, b) == f.Mul(b, a)
  {
    assert f.MulLaws(a, b, a);
  }

  lemma MulAssoc<E(!new)>(f: Field<E>, a: E, b: E, c: E)
    requires IsField(f)
    ensures f.Mul(f.Mul(a, b), c) == f.Mul(a, f.Mul(b, c))
  {
    assert f.MulLaws(a, b, c);
  }

  lemma MulOne<E(!new)>(f: Field<E>, a: E)
    requires IsField(f)
    ensures f.Mul(a, f.one) == a && f.Mul(f.one, a) == a
  {
    assert f.MulLaws(a, f.one, a);
  }

  lemma Distribute<E(!new)>(f: Field<E>, a: E, b: E, c: E)
    requires IsField(f)
    ensures f.Mul(a, f.Add(b, c)) == f.Add(f.Mul(a, b), f.Mul(a, c))
    ensures f.Mul(f.Add(b, c), a) == f.Add(f.Mul(b, a), f.Mul(c, a))
  {
    assert f.MulLaws(a, b, c);
    MulComm(f, a, b);
    MulComm(f, a, c);
    MulComm(f, a, f.Add(b, c));
  }

  lemma MulZero<E(!new)>(f: Field<E>, a: E)
    requires IsField(f)
    ensures f.Mul(a, f.zero) == f.zero && f.Mul(f.zero, a) == f.zero
  {
    Distribute(f, a, f.zero, f.zero);
    AddZero(f, f.zero);
    AddSelf(f, f.Mul(a, f.zero));
    MulComm(f, a, f.zero);
  }

  lemma MulInv<E(!new)>(f: Field<E>, a: E)
    requires IsField(f) && a != f.zero
    ensures f.Mul(a, f.Inv(a)) == f.one && f.Mul(f.Inv(a), a) == f.one
    ensures f.Inv(a) != f.zero
  {
    assert f.InvLaw(a);
    MulComm(f, a, f.Inv(a));
    MulZero(f, a);
  }

  /** a * (1/a * b) == b */
  lemma MulInvCancel<E(!new)>(f: Field<E>, a: E, b: E)
    requires IsField(f) && a != f.zero
    ensures f.Mul(a, f.Mul(f.Inv(a), b)) == b && f.Mul(f.Inv(a), f.Mul(a, b)) == b
  {
    MulInv(f, a);
    MulAssoc(f, a, f.Inv(a), b);
    MulAssoc(f, f.Inv(a), a, b);
    MulOne(f, b);
  }

  /** There are no zero divisors. */
  lemma MulZeroIff<E(!new)>(f: Field<E>, a: E, b: E)
    requires IsField(f)
    ensures f.Mul(a, b) == f.zero <==> a == f.zero || b == f.zero
  {
    MulZero(f, a);
    MulZero(f, b);
    if a != f.zero {
      MulInvCancel(f, a, b);
      MulZero(f, f.Inv(a));
    }
  }
}
