/** The individual law checks of the ring analyser. Each takes the element
    labels and one or both operation tables, already validated, and returns
    a verdict together with the details it reports. */
module Checks {
  import opened Tables
  import opened Triples
  import opened Pairs

  /** The identity search's report: the label found and the position the
      label-to-position dictionary gives it. */
  datatype Identity<T> = Identity(element: T, index: nat)

  /** What the inverse check reports: a reason when there is no identity to
      invert against, or the first inverse of each label that has one and,
      in list order, the labels that have none. */
  datatype InverseDetails<T> =
    | InverseReason(reason: string)
    | InverseReport(inverses: map<T, T>, missing: seq<T>)

  /** What the zero-divisor check reports: a reason when there is no additive
      identity, or every pair of zero divisors together with the zero used. */
  datatype ZeroDivisorDetails<T> =
    | ZeroDivisorReason(reason: string)
    | ZeroDivisorReport(divisors: seq<PairFinding<T>>, zero: T)

  /** The abelian-group check's per-law report for the addition table. */
  datatype AbelianDetails<T> = AbelianDetails(
    associativity: bool,
    commutativity: bool,
    identity: Option<Identity<T>>,
    inverses: InverseDetails<T>)

  const NoIdentityReason := "Tidak ditemukan elemen identitas"
  const AbelianNoIdentityReason := "Tidak ada elemen identitas"
  const NoAdditiveIdentityReason := "Tidak ditemukan identitas aditif"
  const NoUnityReason := "Tidak ditemukan identitas perkalian"

  /** What the identity search reports: the identity, if there is one, with
      the position the label-to-position dictionary gives it. */
  function IdentityReport<T(==)>(e: seq<T>, t: Table<T>): Option<Identity<T>>
    requires WellFormed(e, t)
  {
    match IdentityElement(e, t)
    case Some(z) => Some(Identity(z, IndexOf(e, z)))
    case None => None
  }

  /** The triple scan's law for one table is associativity. */
  lemma AssociativityIsHolds<T>(e: seq<T>, t: Table<T>)
    requires WellFormed(e, t)
    ensures Holds(e, Associativity(t)) <==> Associative(e, t)
  {
    var law := Associativity(t);
    forall a, b, c | a in e && b in e && c in e
      ensures (Sides(e, law, a, b, c).0 == Sides(e, law, a, b, c).1) == AssociatesAt(e, t, a, b, c)
    {
    }
  }

  /** The triple scan's law for both tables is left distributivity. */
  lemma DistributivityIsHolds<T>(e: seq<T>, add: Table<T>, mul: Table<T>)
    requires WellFormed(e, add) && WellFormed(e, mul)
    ensures Holds(e, LeftDistributivity(add, mul)) <==> LeftDistributive(e, add, mul)
  {
    var law := LeftDistributivity(add, mul);
    forall a, b, c | a in e && b in e && c in e
      ensures (Sides(e, law, a, b, c).0 == Sides(e, law, a, b, c).1) == DistributesAt(e, add, mul, a, b, c)
    {
    }
  }

  /** Associativity of one table: holds for every triple, with the first
      mismatches in lexicographic order as counterexamples. */
  method CheckAssociativity<T(==)>(e: seq<T>, t: Table<T>)
    returns (ok: bool, counterexamples: seq<TripleCounterexample<T>>)
    requires WellFormed(e, t)
    ensures ok <==> Associative(e, t)
    ensures counterexamples == Capped(Violations(e, Associativity(t)))
    ensures forall v :: v in counterexamples ==> Genuine(e, Associativity(t), v)
  {
    counterexamples := ScanTriples(e, Associativity(t));
    ok := |counterexamples| == 0;
    AssociativityIsHolds(e, t);
  }

  /** Left distributivity of multiplication over addition. */
  method CheckDistributivity<T(==)>(e: seq<T>, add: Table<T>, mul: Table<T>)
    returns (ok: bool, counterexamples: seq<TripleCounterexample<T>>)
    requires WellFormed(e, add) && WellFormed(e, mul)
    ensures ok <==> LeftDistributive(e, add, mul)
    ensures counterexamples == Capped(Violations(e, LeftDistributivity(add, mul)))
    ensures forall v :: v in counterexamples ==> Genuine(e, LeftDistributivity(add, mul), v)
  {
    counterexamples := ScanTriples(e, LeftDistributivity(add, mul));
    ok := |counterexamples| == 0;
    DistributivityIsHolds(e, add, mul);
  }

  /** The full commutativity list is empty exactly when the table commutes. */
  lemma CommutingIff<T>(e: seq<T>, t: Table<T>)
    requires WellFormed(e, t)
    ensures Findings(e, Commutativity(t)) == [] <==> Commutative(e, t)
  {
    FindingsEmptyIff(e, Commutativity(t));
    forall a, b | a in e && b in e
      ensures Flagged(e, Commutativity(t), a, b) == !CommutesAt(e, t, a, b)
    {
    }
  }

  /** Commutativity of one table: holds for every pair, with the first
      non-commuting pairs in row-major order as counterexamples. */
  method CheckCommutativity<T(==)>(e: seq<T>, t: Table<T>) returns (ok: bool, counterexamples: seq<PairFinding<T>>)
    requires WellFormed(e, t)
    ensures ok <==> Commutative(e, t)
    ensures counterexamples == Capped(Findings(e, Commutativity(t)))
  {
    counterexamples := ScanCommuting(e, t);
    ok := |counterexamples| == 0;
    CommutingIff(e, t);
  }

  /** The identity search's inner loop: whether the label at position p
      leaves every label unchanged on both sides. */
  method IsIdentityAt<T(==)>(e: seq<T>, t: Table<T>, p: nat) returns (isIdentity: bool)
    requires WellFormed(e, t) && p < |e|
    ensures isIdentity <==> IsIdentity(e, t, e[p])
  {
    var candidate := e[p];
    var ci := IndexOf(e, candidate);
    var q := 0;
    while q < |e|
      invariant 0 <= q <= |e|
      invariant forall m {:trigger Apply(e, t, candidate, e[m])} :: 0 <= m < q ==>
                  Apply(e, t, candidate, e[m]) == e[m] && Apply(e, t, e[m], candidate) == e[m]
    {
      var elem := e[q];
      var ei := IndexOf(e, elem);
      if t[ci][ei] != elem || t[ei][ci] != elem {
        assert Apply(e, t, candidate, elem) != elem || Apply(e, t, elem, candidate) != elem;
        return false;
      }
      q := q + 1;
    }
    forall x | x in e
      ensures Apply(e, t, candidate, x) == x && Apply(e, t, x, candidate) == x
    {
      var m :| 0 <= m < |e| && e[m] == x;
    }
    return true;
  }

  /** The identity search: tries each label in list order and returns the
      first that is a two-sided identity. */
  method CheckIdentity<T(==)>(e: seq<T>, t: Table<T>) returns (found: Option<Identity<T>>)
    requires WellFormed(e, t)
    ensures found.None? <==> IdentityElement(e, t).None?
    ensures found == IdentityReport(e, t)
    ensures found.Some? ==> (FirstIdentity(e, t).Some? &&
                             found.value.element == e[FirstIdentity(e, t).value] &&
                             found.value.index == IndexOf(e, found.value.element))
  {
    var p := 0;
    while p < |e|
      invariant 0 <= p <= |e|
      invariant FirstIdentity(e, t) == FirstIdentity(e, t, p)
    {
      var isIdentity := IsIdentityAt(e, t, p);
      if isIdentity {
        return Some(Identity(e[p], IndexOf(e, e[p])));
      }
      p := p + 1;
    }
    return None;
  }

  /** The identity of the multiplication table, searched the same way. */
  method CheckUnity<T(==)>(e: seq<T>, mul: Table<T>) returns (found: Option<Identity<T>>)
    requires WellFormed(e, mul)
    ensures found.Some? == IdentityElement(e, mul).Some?
    ensures found == IdentityReport(e, mul)
    ensures found.Some? ==> (FirstIdentity(e, mul).Some? &&
                             found.value.element == e[FirstIdentity(e, mul).value] &&
                             found.value.index == IndexOf(e, found.value.element))
  {
    found := CheckIdentity(e, mul);
  }

  /** Position of the first candidate, from position `k` on, that is a
      two-sided inverse of `x` with respect to `z`. */
  function FirstInverse<T(==)>(e: seq<T>, t: Table<T>, z: T, x: T, k: nat := 0): (r: Option<nat>)
    requires WellFormed(e, t) && x in e && k <= |e|
    ensures r.Some? ==> k <= r.value < |e| && IsInverse(e, t, z, x, e[r.value])
    decreases |e| - k
  {
    if k == |e| then None
    else if IsInverse(e, t, z, x, e[k]) then Some(k)
    else FirstInverse(e, t, z, x, k + 1)
  }

  /** No label before the inverse the search finds, from `k` on, is an
      inverse. */
  lemma {:induction false} FirstInverseIsFirst<T>(e: seq<T>, t: Table<T>, z: T, x: T, k: nat)
    requires WellFormed(e, t) && x in e && k <= |e|
    ensures FirstInverse(e, t, z, x, k).Some? ==>
              forall m {:trigger IsInverse(e, t, z, x, e[m])} ::
                k <= m < FirstInverse(e, t, z, x, k).value ==> !IsInverse(e, t, z, x, e[m])
    decreases |e| - k
  {
    if k < |e| && !IsInverse(e, t, z, x, e[k]) {
      FirstInverseIsFirst(e, t, z, x, k + 1);
    }
  }

  /** The search finds nothing exactly when no label from `k` on is an
      inverse. */
  lemma {:induction false} FirstInverseNone<T>(e: seq<T>, t: Table<T>, z: T, x: T, k: nat)
    requires WellFormed(e, t) && x in e && k <= |e|
    ensures FirstInverse(e, t, z, x, k).None? <==>
              forall m {:trigger IsInverse(e, t, z, x, e[m])} :: k <= m < |e| ==> !IsInverse(e, t, z, x, e[m])
    decreases |e| - k
  {
    if k < |e| && !IsInverse(e, t, z, x, e[k]) {
      FirstInverseNone(e, t, z, x, k + 1);
    }
  }

  /** The labels among the first `n`, in list order, without an inverse. */
  function Missing<T(==)>(e: seq<T>, t: Table<T>, z: T, n: nat): (r: seq<T>)
    requires WellFormed(e, t) && n <= |e|
  {
    if n == 0 then []
    else Missing(e, t, z, n - 1) + (if FirstInverse(e, t, z, e[n - 1]).None? then [e[n - 1]] else [])
  }

  /** The first inverse of each of the first `n` labels that has one; a
      repeated label is entered again with the same inverse. */
  function Inverses<T(==)>(e: seq<T>, t: Table<T>, z: T, n: nat): (r: map<T, T>)
    requires WellFormed(e, t) && n <= |e|
  {
    if n == 0 then map[]
    else
      var x := e[n - 1];
      var k := FirstInverse(e, t, z, x);
      if k.Some? then Inverses(e, t, z, n - 1)[x := e[k.value]] else Inverses(e, t, z, n - 1)
  }

  /** `x` has no inverse at all exactly when the search finds none. */
  lemma NoInverseIff<T>(e: seq<T>, t: Table<T>, z: T, x: T)
    requires WellFormed(e, t) && x in e
    ensures FirstInverse(e, t, z, x).None? <==> !HasInverse(e, t, z, x)
  {
    FirstInverseNone(e, t, z, x, 0);
    if FirstInverse(e, t, z, x).None? {
      forall y | y in e ensures !IsInverse(e, t, z, x, y)
      {
        var m :| 0 <= m < |e| && e[m] == y;
      }
    }
  }

  /** A label is listed as missing exactly when it is among the first `n`
      and the search finds no inverse for it. */
  lemma {:induction false} MissingExactly<T>(e: seq<T>, t: Table<T>, z: T, n: nat, x: T)
    requires WellFormed(e, t) && n <= |e|
    ensures x in Missing(e, t, z, n) <==> x in e[..n] && FirstInverse(e, t, z, x).None?
  {
    if n > 0 {
      MissingExactly(e, t, z, n - 1, x);
      TakeLast(e, n);
    }
  }

  /** Each label among the first `n` with an inverse is entered with the
      first one, and nothing else is entered. */
  lemma {:induction false} InversesAt<T>(e: seq<T>, t: Table<T>, z: T, n: nat, x: T)
    requires WellFormed(e, t) && n <= |e|
    ensures x in Inverses(e, t, z, n) <==> x in e[..n] && FirstInverse(e, t, z, x).Some?
    ensures x in Inverses(e, t, z, n) ==> Inverses(e, t, z, n)[x] == e[FirstInverse(e, t, z, x).value]
  {
    if n > 0 {
      InversesAt(e, t, z, n - 1, x);
      TakeLast(e, n);
    }
  }

  /** The inverse check's two lists, stated over labels: the map gives every
      label with an inverse a genuine (and the first) inverse, and the
      missing list holds exactly the labels that have none. */
  lemma InverseReportExactly<T>(e: seq<T>, t: Table<T>, z: T, x: T)
    requires WellFormed(e, t) && x in e
    ensures x in Inverses(e, t, z, |e|) <==> HasInverse(e, t, z, x)
    ensures x in Inverses(e, t, z, |e|) ==>
              Inverses(e, t, z, |e|)[x] in e && IsInverse(e, t, z, x, Inverses(e, t, z, |e|)[x])
    ensures x in Missing(e, t, z, |e|) <==> !HasInverse(e, t, z, x)
  {
    assert e[..|e|] == e;
    InversesAt(e, t, z, |e|, x);
    MissingExactly(e, t, z, |e|, x);
    NoInverseIff(e, t, z, x);
  }

  /** The inverse check passes exactly when no label is missing an inverse. */
  lemma NoneMissingIff<T>(e: seq<T>, t: Table<T>, z: T)
    requires WellFormed(e, t)
    ensures Missing(e, t, z, |e|) == [] <==> AllInvertible(e, t, z)
  {
    if Missing(e, t, z, |e|) == [] {
      forall x | x in e ensures HasInverse(e, t, z, x)
      {
        InverseReportExactly(e, t, z, x);
      }
    } else {
      var x := Missing(e, t, z, |e|)[0];
      MissingExactly(e, t, z, |e|, x);
      InverseReportExactly(e, t, z, x);
    }
  }

  /** The inverse check's report against an identity `z`: the first inverse
      of every label that has one, and the labels that have none. */
  function InverseReportFor<T(==)>(e: seq<T>, t: Table<T>, z: T): InverseDetails<T>
    requires WellFormed(e, t)
  {
    InverseReport(Inverses(e, t, z, |e|), Missing(e, t, z, |e|))
  }

  /** The abelian-group check's report: the verdicts on associativity and
      commutativity, the identity search's report, and the inverse check
      against the identity, or the reason when there is none. */
  function AbelianReport<T(==)>(e: seq<T>, add: Table<T>): AbelianDetails<T>
    requires WellFormed(e, add)
  {
    AbelianDetails(
      Associative(e, add),
      Commutative(e, add),
      IdentityReport(e, add),
      match IdentityElement(e, add)
      case Some(z) => InverseReportFor(e, add, z)
      case None => InverseReason(AbelianNoIdentityReason))
  }

  /** The zero-divisor check's report: every pair of non-zero labels whose
      product is the additive identity, with that identity, or the reason
      when there is none. */
  function ZeroDivisorReportFor<T(==)>(e: seq<T>, add: Table<T>, mul: Table<T>): ZeroDivisorDetails<T>
    requires WellFormed(e, add) && WellFormed(e, mul)
  {
    match IdentityElement(e, add)
    case Some(z) => ZeroDivisorReport(Findings(e, ZeroProducts(mul, z)), z)
    case None => ZeroDivisorReason(NoAdditiveIdentityReason)
  }

  /** The multiplicative-inverse check's report: the inverse check against
      the unity, or the reason when there is none. */
  function MultiplicativeInverseReport<T(==)>(e: seq<T>, mul: Table<T>): InverseDetails<T>
    requires WellFormed(e, mul)
  {
    match IdentityElement(e, mul)
    case Some(u) => InverseReportFor(e, mul, u)
    case None => InverseReason(NoUnityReason)
  }

  /** The inverse check's inner search: the first candidate inverse of `x`. */
  method SearchInverse<T(==)>(e: seq<T>, t: Table<T>, z: T, x: T) returns (found: Option<T>)
    requires WellFormed(e, t) && x in e
    ensures found.None? <==> FirstInverse(e, t, z, x).None?
    ensures found.Some? ==> found.value == e[FirstInverse(e, t, z, x).value]
  {
    var xi := IndexOf(e, x);
    var c := 0;
    while c < |e|
      invariant 0 <= c <= |e|
      invariant FirstInverse(e, t, z, x) == FirstInverse(e, t, z, x, c)
    {
      var candidate := e[c];
      var ci := IndexOf(e, candidate);
      if t[xi][ci] == z && t[ci][xi] == z {
        return Some(candidate);
      }
      c := c + 1;
    }
    return None;
  }

  /** The inverse check: with no identity it fails with a reason; otherwise
      every label gets its first inverse recorded or is listed as missing,
      and the check passes when none is missing. */
  method CheckInverses<T(==)>(e: seq<T>, t: Table<T>, identity: Option<T>)
    returns (ok: bool, details: InverseDetails<T>)
    requires WellFormed(e, t)
    ensures identity.None? ==> !ok && details == InverseReason(NoIdentityReason)
    ensures identity.Some? ==>
              details == InverseReport(Inverses(e, t, identity.value, |e|), Missing(e, t, identity.value, |e|))
    ensures identity.Some? ==> (ok <==> AllInvertible(e, t, identity.value))
  {
    if identity.None? {
      return false, InverseReason(NoIdentityReason);
    }
    var z := identity.value;
    var inverses: map<T, T> := map[];
    var missing: seq<T> := [];
    var p := 0;
    while p < |e|
      invariant 0 <= p <= |e|
      invariant inverses == Inverses(e, t, z, p)
      invariant missing == Missing(e, t, z, p)
    {
      var elem := e[p];
      var inverse := SearchInverse(e, t, z, elem);
      if inverse.Some? {
        inverses := inverses[elem := inverse.value];
      } else {
        missing := missing + [elem];
      }
      p := p + 1;
    }
    NoneMissingIff(e, t, z);
    ok := |missing| == 0;
    details := InverseReport(inverses, missing);
  }

  /** The addition table is an abelian group: associative, commutative, with
      an identity and an inverse of every label against it. */
  method CheckAbelianGroup<T(==)>(e: seq<T>, add: Table<T>) returns (ok: bool, details: AbelianDetails<T>)
    requires WellFormed(e, add)
    ensures ok <==> AbelianGroup(e, add)
    ensures details.associativity <==> Associative(e, add)
    ensures details.commutativity <==> Commutative(e, add)
    ensures details.identity.Some? <==> IdentityElement(e, add).Some?
    ensures details.identity.Some? ==> details.identity.value.element == IdentityElement(e, add).value
    ensures details.identity.None? ==> details.inverses == InverseReason(AbelianNoIdentityReason)
    ensures details == AbelianReport(e, add)
  {
    var associative, _ := CheckAssociativity(e, add);
    var commutative, _ := CheckCommutativity(e, add);
    var identity := CheckIdentity(e, add);
    var invertible: bool;
    var inverses: InverseDetails<T>;
    if identity.Some? {
      invertible, inverses := CheckInverses(e, add, Some(identity.value.element));
    } else {
      invertible, inverses := false, InverseReason(AbelianNoIdentityReason);
    }
    ok := associative && commutative && identity.Some? && invertible;
    details := AbelianDetails(associative, commutative, identity, inverses);
  }

  /** The zero-divisor check: with no additive identity it fails with a
      reason; otherwise it lists every pair of non-zero labels whose product
      is the zero, and passes when that list is non-empty. */
  method CheckZeroDivisors<T(==)>(e: seq<T>, add: Table<T>, mul: Table<T>)
    returns (has: bool, details: ZeroDivisorDetails<T>)
    requires WellFormed(e, add) && WellFormed(e, mul)
    ensures IdentityElement(e, add).None? ==> !has && details == ZeroDivisorReason(NoAdditiveIdentityReason)
    ensures IdentityElement(e, add).Some? ==>
              details == ZeroDivisorReport(Findings(e, ZeroProducts(mul, IdentityElement(e, add).value)),
                                           IdentityElement(e, add).value)
    ensures has <==> (IdentityElement(e, add).Some? &&
                      exists a, b {:trigger Flagged(e, ZeroProducts(mul, IdentityElement(e, add).value), a, b)} ::
                        a in e && b in e && Flagged(e, ZeroProducts(mul, IdentityElement(e, add).value), a, b))
    ensures details == ZeroDivisorReportFor(e, add, mul)
  {
    var zero := CheckIdentity(e, add);
    if zero.None? {
      return false, ZeroDivisorReason(NoAdditiveIdentityReason);
    }
    var z := zero.value.element;
    var divisors := ScanZeroDivisors(e, mul, z);
    FindingsEmptyIff(e, ZeroProducts(mul, z));
    has := |divisors| > 0;
    details := ZeroDivisorReport(divisors, z);
  }

  /** The multiplicative-inverse check: fails with a reason when there is no
      unity, and is otherwise the inverse check against the unity. */
  method CheckMultiplicativeInverses<T(==)>(e: seq<T>, mul: Table<T>) returns (ok: bool, details: InverseDetails<T>)
    requires WellFormed(e, mul)
    ensures IdentityElement(e, mul).None? ==> !ok && details == InverseReason(NoUnityReason)
    ensures IdentityElement(e, mul).Some? ==> (var u := IdentityElement(e, mul).value;
      details == InverseReport(Inverses(e, mul, u, |e|), Missing(e, mul, u, |e|)))
    ensures ok <==> IdentityElement(e, mul).Some? && AllInvertible(e, mul, IdentityElement(e, mul).value)
    ensures details == MultiplicativeInverseReport(e, mul)
  {
    var unity := CheckIdentity(e, mul);
    if unity.None? {
      return false, InverseReason(NoUnityReason);
    }
    ok, details := CheckInverses(e, mul, Some(unity.value.element));
  }
}
