/** What the laws the analyser checks imply for its verdicts. The additive
    identity absorbs products from the left distributive law, so a ring in
    which two labels differ can never have multiplicative inverses for every
    label: the analyser's field and division-ring rungs are reached only
    when the labels repeat a single element. */
module Consequences {
  import opened Tables
  import opened Analysis

  /** An operation has at most one two-sided identity. */
  lemma IdentityUnique<T>(e: seq<T>, t: Table<T>, z1: T, z2: T)
    requires WellFormed(e, t) && z1 in e && z2 in e
    requires IsIdentity(e, t, z1) && IsIdentity(e, t, z2)
    ensures z1 == z2
  {
    assert Apply(e, t, z1, z2) == z2;
  }

  /** The identity the search returns is the only one. */
  lemma IdentityElementIsOnly<T>(e: seq<T>, t: Table<T>, z: T)
    requires WellFormed(e, t) && z in e && IsIdentity(e, t, z)
    ensures IdentityElement(e, t) == Some(z)
  {
    IdentityUnique(e, t, IdentityElement(e, t).value, z);
  }

  /** In an abelian group, an element equal to its own double is the
      identity. */
  lemma DoubleIsZero<T>(e: seq<T>, add: Table<T>, zero: T, p: T)
    requires WellFormed(e, add) && AbelianGroup(e, add) && zero == IdentityElement(e, add).value
    requires p in e && Apply(e, add, p, p) == p
    ensures p == zero
  {
    assert HasInverse(e, add, zero, p);
    var q :| q in e && IsInverse(e, add, zero, p, q);
    assert AssociatesAt(e, add, p, p, q);
    assert Apply(e, add, p, zero) == p;
  }

  /** With addition an abelian group and multiplication left distributive
      over it, the additive identity absorbs every product with it on the
      right: x*0 == 0. */
  lemma ZeroAbsorbs<T>(e: seq<T>, add: Table<T>, mul: Table<T>, x: T)
    requires WellFormed(e, add) && WellFormed(e, mul) && x in e
    requires AbelianGroup(e, add) && LeftDistributive(e, add, mul)
    ensures Apply(e, mul, x, IdentityElement(e, add).value) == IdentityElement(e, add).value
  {
    var zero := IdentityElement(e, add).value;
    assert Apply(e, add, zero, zero) == zero;
    assert DistributesAt(e, add, mul, x, zero, zero);
    DoubleIsZero(e, add, zero, Apply(e, mul, x, zero));
  }

  /** In a ring whose multiplication has a unity and gives every label an
      inverse, the unity is the zero, and so every label is the zero. */
  lemma InvertibleRingIsTrivial<T>(e: seq<T>, add: Table<T>, mul: Table<T>, a: T)
    requires WellFormed(e, add) && WellFormed(e, mul) && a in e
    requires IsRing(e, add, mul) && Invertible(e, mul)
    ensures a == IdentityElement(e, add).value
  {
    var zero, unity := IdentityElement(e, add).value, IdentityElement(e, mul).value;
    assert HasInverse(e, mul, unity, zero);
    var y :| y in e && IsInverse(e, mul, unity, zero, y);
    ZeroAbsorbs(e, add, mul, y);
    assert unity == zero;
    ZeroAbsorbs(e, add, mul, a);
    assert Apply(e, mul, a, unity) == a;
  }

  /** A ring with two different labels never has inverses for every label. */
  lemma NoInversesInNontrivialRing<T>(e: seq<T>, add: Table<T>, mul: Table<T>, a: T, b: T)
    requires WellFormed(e, add) && WellFormed(e, mul) && a in e && b in e && a != b
    requires IsRing(e, add, mul)
    ensures !Invertible(e, mul)
  {
    if Invertible(e, mul) {
      InvertibleRingIsTrivial(e, add, mul, a);
      InvertibleRingIsTrivial(e, add, mul, b);
    }
  }

  /** The field and division-ring rungs are reached only when every label
      is the same element: for tables with two different labels the
      classification is never either of them. */
  lemma FieldOnlyWhenTrivial<T>(props: map<RingProperty, bool>, e: seq<T>, add: Table<T>, mul: Table<T>,
                                a: T, b: T)
    requires WellFormed(e, add) && WellFormed(e, mul) && Describes(props, e, add, mul)
    requires a in e && b in e && a != b
    ensures Classify(props) != Field && Classify(props) != DivisionRing
  {
    RingVerdictIsRing(props, e, add, mul);
    if RingVerdict(props) {
      NoInversesInNontrivialRing(e, add, mul, a, b);
    }
  }

  /** Tables over a single repeated label form a ring in which that label
      is both zero and unity and its own inverse, and nothing divides the
      zero: the analyser names them a field. */
  lemma SingleLabelIsField<T>(props: map<RingProperty, bool>, e: seq<T>, add: Table<T>, mul: Table<T>, z: T)
    requires WellFormed(e, add) && WellFormed(e, mul) && Describes(props, e, add, mul)
    requires z in e && forall x :: x in e ==> x == z
    ensures Classify(props) == Field
  {
    assert IsIdentity(e, add, z) && IsIdentity(e, mul, z);
    IdentityElementIsOnly(e, add, z);
    IdentityElementIsOnly(e, mul, z);
    assert IsInverse(e, add, z, z, z) && IsInverse(e, mul, z, z, z);
    assert HasInverse(e, add, z, z) && HasInverse(e, mul, z, z);
  }
}
