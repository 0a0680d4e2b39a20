/** The multiplicative-inverse check as a field's definition asks for it:
    every label except the additive zero needs an inverse against the unity.
    The analyser's own check also demands an inverse of the zero, which no
    ring with two different labels has, so its field rung is out of reach;
    with this check the Z3 sample is named a field. */
module Corrected {
  import opened Tables
  import opened Checks
  import opened Analysis
  import opened Samples

  /** Addition and multiplication have identities, and every label other
      than the additive identity has an inverse against the unity. */
  predicate NonzeroInvertible<T(==)>(e: seq<T>, add: Table<T>, mul: Table<T>)
    requires WellFormed(e, add) && WellFormed(e, mul)
  {
    && IdentityElement(e, add).Some?
    && IdentityElement(e, mul).Some?
    && forall x {:trigger HasInverse(e, mul, IdentityElement(e, mul).value, x)} ::
         x in e && x != IdentityElement(e, add).value ==> HasInverse(e, mul, IdentityElement(e, mul).value, x)
  }

  /** The recorded properties are the laws they stand for, with the
      inverse property read as `NonzeroInvertible`. */
  predicate DescribesCorrected<T(==)>(props: map<RingProperty, bool>, e: seq<T>, add: Table<T>, mul: Table<T>)
    requires WellFormed(e, add) && WellFormed(e, mul)
  {
    && Get(props, AbelianAddition) == AbelianGroup(e, add)
    && Get(props, AssociativeMultiplication) == Associative(e, mul)
    && Get(props, Distributive) == LeftDistributive(e, add, mul)
    && Get(props, CommutativeMultiplication) == Commutative(e, mul)
    && Get(props, HasUnity) == IdentityElement(e, mul).Some?
    && Get(props, HasZeroDivisors) == ZeroDivisorsExist(e, add, mul)
    && Get(props, HasInverses) == NonzeroInvertible(e, add, mul)
  }

  /** The corrected check asks less than the analyser's: tables that pass
      the analyser's check and have an additive identity pass this one. */
  lemma InvertibleIsNonzeroInvertible<T>(e: seq<T>, add: Table<T>, mul: Table<T>)
    requires WellFormed(e, add) && WellFormed(e, mul)
    requires Invertible(e, mul) && IdentityElement(e, add).Some?
    ensures NonzeroInvertible(e, add, mul)
  {
    var u := IdentityElement(e, mul).value;
    forall x | x in e && x != IdentityElement(e, add).value
      ensures HasInverse(e, mul, u, x)
    {
    }
  }

  /** The corrected multiplicative-inverse check: find both identities,
      then search an inverse for every label other than the additive one. */
  method CheckNonzeroInverses<T(==)>(e: seq<T>, add: Table<T>, mul: Table<T>) returns (ok: bool)
    requires WellFormed(e, add) && WellFormed(e, mul)
    ensures ok <==> NonzeroInvertible(e, add, mul)
  {
    var zero := CheckIdentity(e, add);
    var unity := CheckIdentity(e, mul);
    if zero.None? || unity.None? {
      return false;
    }
    var z, u := zero.value.element, unity.value.element;
    var p := 0;
    while p < |e|
      invariant 0 <= p <= |e|
      invariant forall m {:trigger HasInverse(e, mul, u, e[m])} ::
                  0 <= m < p && e[m] != z ==> HasInverse(e, mul, u, e[m])
    {
      var elem := e[p];
      if elem != z {
        var inverse := SearchInverse(e, mul, u, elem);
        NoInverseIff(e, mul, u, elem);
        if inverse.None? {
          return false;
        }
      }
      p := p + 1;
    }
    forall x | x in e && x != z
      ensures HasInverse(e, mul, u, x)
    {
      assert e[IndexOf(e, x)] == x;
    }
    return true;
  }

  /** The Z3 sample passes the corrected check: B and C are their own
      inverses, and only the zero A has none. */
  lemma Z3NonzeroInvertible()
    ensures WellFormed(Z3Labels, Z3Add) && WellFormed(Z3Labels, Z3Mul)
    ensures NonzeroInvertible(Z3Labels, Z3Add, Z3Mul)
  {
    Lookups();
    Z3Addition();
    Z3Multiplication();
    assert IsInverse(Z3Labels, Z3Mul, 'B', 'B', 'B');
    assert IsInverse(Z3Labels, Z3Mul, 'B', 'C', 'C');
    forall x | x in Z3Labels && x != 'A'
      ensures HasInverse(Z3Labels, Z3Mul, 'B', x)
    {
    }
  }

  /** With the corrected inverse property the Z3 sample is named a field. */
  lemma Z3IsField(props: map<RingProperty, bool>)
    requires WellFormed(Z3Labels, Z3Add) && WellFormed(Z3Labels, Z3Mul)
    requires DescribesCorrected(props, Z3Labels, Z3Add, Z3Mul)
    ensures Classify(props) == Field
  {
    Z3Addition();
    Z3Multiplication();
    Z3Mixed();
    Z3NonzeroInvertible();
  }
}
