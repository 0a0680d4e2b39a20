/** The Z3 sample the analyser ships with (addition and multiplication
    modulo 3 on the labels A, B, C standing for 0, 1, 2), worked through the
    model: it is a commutative ring with unity and without zero divisors,
    yet the zero has no multiplicative inverse, so the analyser names it an
    integral domain and not a field. */
module Samples {
  import opened Tables
  import opened Pairs
  import opened Analysis
  import opened Consequences

  /** The labels, as single characters. */
  const Z3Labels: seq<char> := ['A', 'B', 'C']
  const Z3Add: Table<char> := [['A', 'B', 'C'], ['B', 'C', 'A'], ['C', 'A', 'B']]
  const Z3Mul: Table<char> := [['A', 'A', 'A'], ['A', 'B', 'C'], ['A', 'C', 'B']]

  /** Both tables are well formed, and each label sits at its own position. */
  lemma Lookups()
    ensures WellFormed(Z3Labels, Z3Add) && WellFormed(Z3Labels, Z3Mul)
    ensures IndexOf(Z3Labels, 'A') == 0 && IndexOf(Z3Labels, 'B') == 1 && IndexOf(Z3Labels, 'C') == 2
  {
    assert Z3Labels[..2] == ['A', 'B'];
    assert Z3Labels[..2][..1] == ['A'];
  }

  /** Addition modulo 3 is associative and commutative. */
  lemma Z3AdditionLaws()
    ensures WellFormed(Z3Labels, Z3Add) && Associative(Z3Labels, Z3Add) && Commutative(Z3Labels, Z3Add)
  {
    Lookups();
    forall a, b, c | a in Z3Labels && b in Z3Labels && c in Z3Labels
      ensures AssociatesAt(Z3Labels, Z3Add, a, b, c)
    {
    }
    forall a, b | a in Z3Labels && b in Z3Labels
      ensures CommutesAt(Z3Labels, Z3Add, a, b)
    {
    }
  }

  /** A is the zero of addition modulo 3, and every label has a negative. */
  lemma Z3Negatives()
    ensures WellFormed(Z3Labels, Z3Add) && IdentityElement(Z3Labels, Z3Add) == Some('A')
    ensures AllInvertible(Z3Labels, Z3Add, 'A')
  {
    Lookups();
    assert IsIdentity(Z3Labels, Z3Add, 'A');
    IdentityElementIsOnly(Z3Labels, Z3Add, 'A');
    assert IsInverse(Z3Labels, Z3Add, 'A', 'A', 'A');
    assert IsInverse(Z3Labels, Z3Add, 'A', 'B', 'C');
    assert IsInverse(Z3Labels, Z3Add, 'A', 'C', 'B');
    forall x | x in Z3Labels
      ensures HasInverse(Z3Labels, Z3Add, 'A', x)
    {
    }
  }

  /** Addition modulo 3 is an abelian group with A as its zero. */
  lemma Z3Addition()
    ensures WellFormed(Z3Labels, Z3Add) && AbelianGroup(Z3Labels, Z3Add)
    ensures IdentityElement(Z3Labels, Z3Add) == Some('A')
  {
    Z3AdditionLaws();
    Z3Negatives();
  }

  /** Multiplication modulo 3 is associative and commutative with B as its
      unity, and A has no inverse, so not every label is invertible. */
  lemma Z3Multiplication()
    ensures WellFormed(Z3Labels, Z3Mul) && Associative(Z3Labels, Z3Mul) && Commutative(Z3Labels, Z3Mul)
    ensures IdentityElement(Z3Labels, Z3Mul) == Some('B')
    ensures !Invertible(Z3Labels, Z3Mul)
  {
    Lookups();
    forall a, b, c | a in Z3Labels && b in Z3Labels && c in Z3Labels
      ensures AssociatesAt(Z3Labels, Z3Mul, a, b, c)
    {
    }
    forall a, b | a in Z3Labels && b in Z3Labels
      ensures CommutesAt(Z3Labels, Z3Mul, a, b)
    {
    }
    assert IsIdentity(Z3Labels, Z3Mul, 'B');
    IdentityElementIsOnly(Z3Labels, Z3Mul, 'B');
    forall y | y in Z3Labels
      ensures !IsInverse(Z3Labels, Z3Mul, 'B', 'A', y)
    {
    }
    assert !HasInverse(Z3Labels, Z3Mul, 'B', 'A');
  }

  /** Multiplication distributes over addition, and no two non-zero labels
      multiply to zero. */
  lemma Z3Mixed()
    ensures WellFormed(Z3Labels, Z3Add) && WellFormed(Z3Labels, Z3Mul)
    ensures LeftDistributive(Z3Labels, Z3Add, Z3Mul)
    ensures !ZeroDivisorsExist(Z3Labels, Z3Add, Z3Mul)
  {
    Lookups();
    Z3Addition();
    forall a, b, c | a in Z3Labels && b in Z3Labels && c in Z3Labels
      ensures DistributesAt(Z3Labels, Z3Add, Z3Mul, a, b, c)
    {
    }
    forall a, b | a in Z3Labels && b in Z3Labels
      ensures !Flagged(Z3Labels, ZeroProducts(Z3Mul, 'A'), a, b)
    {
    }
  }

  /** Whatever properties describe the sample, the analyser classifies it
      as an integral domain. */
  lemma Z3IsIntegralDomain(props: map<RingProperty, bool>)
    requires WellFormed(Z3Labels, Z3Add) && WellFormed(Z3Labels, Z3Mul)
    requires Describes(props, Z3Labels, Z3Add, Z3Mul)
    ensures Classify(props) == IntegralDomain
  {
    Z3Addition();
    Z3Multiplication();
    Z3Mixed();
  }
}
