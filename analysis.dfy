/** The analyser's entry point and its classification of the result: run
    validation, then every law check, combine the verdicts into the ring
    verdict and the seven reported properties, and name the structure by the
    first rung of a fixed decision list that the properties match. */
module Analysis {
  import opened Tables
  import opened Triples
  import opened Pairs
  import opened Checks
  import opened Validation

  datatype RingProperty =
    | AssociativeMultiplication
    | CommutativeMultiplication
    | Distributive
    | HasUnity
    | HasZeroDivisors
    | HasInverses
    | AbelianAddition

  /** The seven properties, every one of which the analysis records. */
  const AllProperties: set<RingProperty> := {
    AssociativeMultiplication, CommutativeMultiplication, Distributive, HasUnity, HasZeroDivisors, HasInverses,
    AbelianAddition
  }

  /** Everything the individual checks report, one field per check. */
  datatype AnalysisDetails<T> = AnalysisDetails(
    abelianAddition: AbelianDetails<T>,
    associativeMultiplication: seq<TripleCounterexample<T>>,
    distributive: seq<TripleCounterexample<T>>,
    commutativeMultiplication: seq<PairFinding<T>>,
    unity: Option<Identity<T>>,
    zeroDivisors: ZeroDivisorDetails<T>,
    inverses: InverseDetails<T>)

  /** The analysis result; `details` is `None` where the analyser reports an
      empty details dictionary. */
  datatype RingAnalysisResult<T> = RingAnalysisResult(
    isRing: bool,
    properties: map<RingProperty, bool>,
    details: Option<AnalysisDetails<T>>,
    errorMessages: seq<ValidationError<T>>,
    classification: Classification)

  /** The names the analyser gives a pair of tables. */
  datatype Classification =
    | AnalysisError
    | NotAbelian
    | NotAssociative
    | NotDistributive
    | Field
    | DivisionRing
    | IntegralDomain
    | CommutativeRingWithUnity
    | CommutativeRing
    | RingWithUnity
    | PlainRing

  /** How every classification that rejects the tables begins. */
  const NotRingPrefix: string := "Bukan ring"

  /** The text begins the way a rejection does. */
  predicate SaysNotRing(r: string)
  {
    |r| >= |NotRingPrefix| && r[..|NotRingPrefix|] == NotRingPrefix
  }

  /** A text whose first letter differs from the rejection's does not say
      the tables fail. */
  lemma OtherThanNotRing(r: string)
    requires |r| > 0 && r[0] != NotRingPrefix[0]
    ensures !SaysNotRing(r)
  {
    if |r| >= |NotRingPrefix| {
      assert r[..|NotRingPrefix|][0] != NotRingPrefix[0];
    }
  }

  /** A rejection followed by its reason says the tables fail. */
  lemma NotRingBecause(reason: string)
    ensures SaysNotRing(NotRingPrefix + reason)
  {
    assert (NotRingPrefix + reason)[..|NotRingPrefix|] == NotRingPrefix;
  }

  /** The text the analyser reports for each classification; exactly the
      three rejections begin with "Bukan ring". */
  function Label(c: Classification): (r: string)
    ensures NotRing(c) <==> SaysNotRing(r)
  {
    match c
    case AnalysisError => OtherThanNotRing("Error selama analisis"); "Error selama analisis"
    case NotAbelian =>
      NotRingBecause(" - penjumlahan bukan abelian");
      NotRingPrefix + " - penjumlahan bukan abelian"
    case NotAssociative =>
      NotRingBecause(" - perkalian tidak asosiatif");
      NotRingPrefix + " - perkalian tidak asosiatif"
    case NotDistributive =>
      NotRingBecause(" - hukum distributif gagal");
      NotRingPrefix + " - hukum distributif gagal"
    case Field => OtherThanNotRing("Field (Lapangan)"); "Field (Lapangan)"
    case DivisionRing => OtherThanNotRing("Division Ring (Skew Field)"); "Division Ring (Skew Field)"
    case IntegralDomain => OtherThanNotRing("Integral Domain"); "Integral Domain"
    case CommutativeRingWithUnity => OtherThanNotRing("Ring Komutatif dengan Unity"); "Ring Komutatif dengan Unity"
    case CommutativeRing => OtherThanNotRing("Ring Komutatif"); "Ring Komutatif"
    case RingWithUnity => OtherThanNotRing("Ring dengan Unity"); "Ring dengan Unity"
    case PlainRing => OtherThanNotRing("Ring"); "Ring"
  }

  /** The classifications that say the tables do not form a ring. */
  predicate NotRing(c: Classification)
  {
    c.NotAbelian? || c.NotAssociative? || c.NotDistributive?
  }

  /** A property's value, read as false when it was not recorded. */
  function Get(props: map<RingProperty, bool>, p: RingProperty): bool
  {
    p in props && props[p]
  }

  /** The three properties that make a ring, as the verdict reads them. */
  predicate RingVerdict(props: map<RingProperty, bool>)
  {
    Get(props, AbelianAddition) && Get(props, AssociativeMultiplication) && Get(props, Distributive)
  }

  /** The decision list: the reason for the first failing ring law, or the
      first matching rung from field down to plain ring. */
  function Classify(props: map<RingProperty, bool>): (r: Classification)
    ensures NotRing(r) <==> !RingVerdict(props)
    ensures !Get(props, AbelianAddition) ==> r == NotAbelian
    ensures Get(props, AbelianAddition) && !Get(props, AssociativeMultiplication) ==> r == NotAssociative
    ensures Get(props, AbelianAddition) && Get(props, AssociativeMultiplication) && !Get(props, Distributive) ==>
              r == NotDistributive
    ensures r != AnalysisError
  {
    if !Get(props, AbelianAddition) then NotAbelian
    else if !Get(props, AssociativeMultiplication) then NotAssociative
    else if !Get(props, Distributive) then NotDistributive
    else
      var hasUnity := Get(props, HasUnity);
      var isCommutative := Get(props, CommutativeMultiplication);
      var hasZeroDivisors := Get(props, HasZeroDivisors);
      var hasInverses := Get(props, HasInverses);
      if hasInverses && hasUnity && !hasZeroDivisors then
        if isCommutative then Field else DivisionRing
      else if hasUnity && isCommutative && !hasZeroDivisors then IntegralDomain
      else if hasUnity && isCommutative then CommutativeRingWithUnity
      else if isCommutative then CommutativeRing
      else if hasUnity then RingWithUnity
      else PlainRing
  }

  /** One rung of the decision list: the values it needs, and its name. */
  datatype Rung = Rung(need: seq<(RingProperty, bool)>, name: Classification)

  /** Every value the rung needs is the recorded one. */
  predicate Matches(need: seq<(RingProperty, bool)>, props: map<RingProperty, bool>)
  {
    need == [] || (Get(props, need[0].0) == need[0].1 && Matches(need[1..], props))
  }

  /** The decision list written out as data, in order. */
  const Ladder: seq<Rung> := [
    Rung([(AbelianAddition, false)], NotAbelian),
    Rung([(AssociativeMultiplication, false)], NotAssociative),
    Rung([(Distributive, false)], NotDistributive),
    Rung([(HasInverses, true), (HasUnity, true), (HasZeroDivisors, false), (CommutativeMultiplication, true)],
         Field),
    Rung([(HasInverses, true), (HasUnity, true), (HasZeroDivisors, false), (CommutativeMultiplication, false)],
         DivisionRing),
    Rung([(HasUnity, true), (CommutativeMultiplication, true), (HasZeroDivisors, false)], IntegralDomain),
    Rung([(HasUnity, true), (CommutativeMultiplication, true)], CommutativeRingWithUnity),
    Rung([(CommutativeMultiplication, true)], CommutativeRing),
    Rung([(HasUnity, true)], RingWithUnity),
    Rung([], PlainRing)
  ]

  /** The name of the first rung the properties match, if any. */
  function FirstMatch(ladder: seq<Rung>, props: map<RingProperty, bool>): Option<Classification>
  {
    if ladder == [] then None
    else if Matches(ladder[0].need, props) then Some(ladder[0].name)
    else FirstMatch(ladder[1..], props)
  }

  /** The first match is the rung at `k` when it matches and none before it does. */
  lemma {:induction false} FirstMatchAt(ladder: seq<Rung>, props: map<RingProperty, bool>, k: nat)
    requires k < |ladder| && Matches(ladder[k].need, props)
    requires forall m :: 0 <= m < k ==> !Matches(ladder[m].need, props)
    ensures FirstMatch(ladder, props) == Some(ladder[k].name)
    decreases k
  {
    if k > 0 {
      assert ladder[1..][k - 1] == ladder[k];
      FirstMatchAt(ladder[1..], props, k - 1);
    }
  }

  /** A rung needing one value matches exactly when that value is recorded. */
  lemma MatchesOne(p: RingProperty, v: bool, props: map<RingProperty, bool>)
    ensures Matches([(p, v)], props) <==> Get(props, p) == v
  {
    assert [(p, v)][1..] == [];
  }

  /** A rung's needs are met when the first is and the rest are. */
  lemma MatchesCons(x: (RingProperty, bool), rest: seq<(RingProperty, bool)>, props: map<RingProperty, bool>)
    ensures Matches([x] + rest, props) <==> Get(props, x.0) == x.1 && Matches(rest, props)
  {
    assert ([x] + rest)[1..] == rest;
  }

  /** The first three rungs are the failed ring laws. */
  lemma LawRungs(props: map<RingProperty, bool>)
    ensures Ladder[0].name == NotAbelian
    ensures Matches(Ladder[0].need, props) <==> !Get(props, AbelianAddition)
    ensures Ladder[1].name == NotAssociative
    ensures Matches(Ladder[1].need, props) <==> !Get(props, AssociativeMultiplication)
    ensures Ladder[2].name == NotDistributive
    ensures Matches(Ladder[2].need, props) <==> !Get(props, Distributive)
  {
    MatchesOne(AbelianAddition, false, props);
    MatchesOne(AssociativeMultiplication, false, props);
    MatchesOne(Distributive, false, props);
  }

  /** The two rungs for structures with inverses: field and division ring. */
  lemma InverseRungs(props: map<RingProperty, bool>)
    ensures Ladder[3].name == Field
    ensures Matches(Ladder[3].need, props) <==>
              Get(props, HasInverses) && Get(props, HasUnity) && !Get(props, HasZeroDivisors) &&
              Get(props, CommutativeMultiplication)
    ensures Ladder[4].name == DivisionRing
    ensures Matches(Ladder[4].need, props) <==>
              Get(props, HasInverses) && Get(props, HasUnity) && !Get(props, HasZeroDivisors) &&
              !Get(props, CommutativeMultiplication)
  {
    MatchesOne(CommutativeMultiplication, false, props);
    MatchesOne(CommutativeMultiplication, true, props);
    MatchesCons((HasZeroDivisors, false), [(CommutativeMultiplication, true)], props);
    MatchesCons((HasZeroDivisors, false), [(CommutativeMultiplication, false)], props);
    MatchesCons((HasUnity, true), [(HasZeroDivisors, false), (CommutativeMultiplication, true)], props);
    MatchesCons((HasUnity, true), [(HasZeroDivisors, false), (CommutativeMultiplication, false)], props);
    MatchesCons((HasInverses, true), [(HasUnity, true), (HasZeroDivisors, false), (CommutativeMultiplication, true)],
                props);
    MatchesCons((HasInverses, true), [(HasUnity, true), (HasZeroDivisors, false), (CommutativeMultiplication, false)],
                props);
  }

  /** The remaining rungs, down to the plain ring that always matches. */
  lemma CommonRungs(props: map<RingProperty, bool>)
    ensures Ladder[5].name == IntegralDomain
    ensures Matches(Ladder[5].need, props) <==>
              Get(props, HasUnity) && Get(props, CommutativeMultiplication) && !Get(props, HasZeroDivisors)
    ensures Ladder[6].name == CommutativeRingWithUnity
    ensures Matches(Ladder[6].need, props) <==> Get(props, HasUnity) && Get(props, CommutativeMultiplication)
    ensures Ladder[7].name == CommutativeRing
    ensures Matches(Ladder[7].need, props) <==> Get(props, CommutativeMultiplication)
    ensures Ladder[8].name == RingWithUnity
    ensures Matches(Ladder[8].need, props) <==> Get(props, HasUnity)
    ensures Ladder[9].name == PlainRing
    ensures Matches(Ladder[9].need, props)
  {
    MatchesOne(CommutativeMultiplication, false, props);
    MatchesOne(CommutativeMultiplication, true, props);
    MatchesOne(HasUnity, true, props);
    MatchesCons((HasUnity, true), [(CommutativeMultiplication, true)], props);
    MatchesCons((CommutativeMultiplication, true), [(HasZeroDivisors, false)], props);
    MatchesCons((HasUnity, true), [(CommutativeMultiplication, true), (HasZeroDivisors, false)], props);
    assert Ladder[9].need == [];
  }

  /** The decision list as written is the first match on the ladder, so the
      order of its tests is exactly the order of the rungs. */
  lemma ClassifyFollowsLadder(props: map<RingProperty, bool>)
    ensures FirstMatch(Ladder, props) == Some(Classify(props))
  {
    LawRungs(props);
    InverseRungs(props);
    CommonRungs(props);
    if !Get(props, AbelianAddition) {
      FirstMatchAt(Ladder, props, 0);
    } else if !Get(props, AssociativeMultiplication) {
      FirstMatchAt(Ladder, props, 1);
    } else if !Get(props, Distributive) {
      FirstMatchAt(Ladder, props, 2);
    } else if Get(props, HasInverses) && Get(props, HasUnity) && !Get(props, HasZeroDivisors) &&
              Get(props, CommutativeMultiplication) {
      FirstMatchAt(Ladder, props, 3);
    } else if Get(props, HasInverses) && Get(props, HasUnity) && !Get(props, HasZeroDivisors) &&
              !Get(props, CommutativeMultiplication) {
      FirstMatchAt(Ladder, props, 4);
    } else if Get(props, HasUnity) && Get(props, CommutativeMultiplication) && !Get(props, HasZeroDivisors) {
      FirstMatchAt(Ladder, props, 5);
    } else if Get(props, HasUnity) && Get(props, CommutativeMultiplication) {
      FirstMatchAt(Ladder, props, 6);
    } else if Get(props, CommutativeMultiplication) {
      FirstMatchAt(Ladder, props, 7);
    } else if Get(props, HasUnity) {
      FirstMatchAt(Ladder, props, 8);
    } else {
      FirstMatchAt(Ladder, props, 9);
    }
  }

  /** The addition table's zero has divisors: two non-zero labels whose
      product is the zero. */
  predicate ZeroDivisorsExist<T(==)>(e: seq<T>, add: Table<T>, mul: Table<T>)
    requires WellFormed(e, add) && WellFormed(e, mul)
  {
    IdentityElement(e, add).Some? &&
    exists a, b {:trigger Flagged(e, ZeroProducts(mul, IdentityElement(e, add).value), a, b)} ::
      a in e && b in e && Flagged(e, ZeroProducts(mul, IdentityElement(e, add).value), a, b)
  }

  /** The multiplication table has a unity and every label an inverse against it. */
  predicate Invertible<T(==)>(e: seq<T>, mul: Table<T>)
    requires WellFormed(e, mul)
  {
    IdentityElement(e, mul).Some? && AllInvertible(e, mul, IdentityElement(e, mul).value)
  }

  /** The ring laws as the analyser checks them: an abelian group under
      addition, associative multiplication, left distributivity. */
  predicate IsRing<T(==)>(e: seq<T>, add: Table<T>, mul: Table<T>)
    requires WellFormed(e, add) && WellFormed(e, mul)
  {
    AbelianGroup(e, add) && Associative(e, mul) && LeftDistributive(e, add, mul)
  }

  /** The seven recorded properties, each verdict under its own key. */
  function PropertyMap(abelian: bool, associative: bool, distributive: bool, commutative: bool,
                       unity: bool, zeroDivisors: bool, inverses: bool): (props: map<RingProperty, bool>)
    ensures Get(props, AbelianAddition) == abelian
    ensures Get(props, AssociativeMultiplication) == associative
    ensures Get(props, Distributive) == distributive
    ensures Get(props, CommutativeMultiplication) == commutative
    ensures Get(props, HasUnity) == unity
    ensures Get(props, HasZeroDivisors) == zeroDivisors
    ensures Get(props, HasInverses) == inverses
    ensures props.Keys == AllProperties
  {
    map[
      AbelianAddition := abelian,
      AssociativeMultiplication := associative,
      Distributive := distributive,
      CommutativeMultiplication := commutative,
      HasUnity := unity,
      HasZeroDivisors := zeroDivisors,
      HasInverses := inverses
    ]
  }

  /** The recorded properties are the laws they stand for. */
  predicate Describes<T(==)>(props: map<RingProperty, bool>, e: seq<T>, add: Table<T>, mul: Table<T>)
    requires WellFormed(e, add) && WellFormed(e, mul)
  {
    && Get(props, AbelianAddition) == AbelianGroup(e, add)
    && Get(props, AssociativeMultiplication) == Associative(e, mul)
    && Get(props, Distributive) == LeftDistributive(e, add, mul)
    && Get(props, CommutativeMultiplication) == Commutative(e, mul)
    && Get(props, HasUnity) == IdentityElement(e, mul).Some?
    && Get(props, HasZeroDivisors) == ZeroDivisorsExist(e, add, mul)
    && Get(props, HasInverses) == Invertible(e, mul)
  }

  /** Verdicts that are the laws record properties that describe them. */
  lemma DescribedBy<T>(e: seq<T>, add: Table<T>, mul: Table<T>, abelian: bool, associative: bool,
                       distributive: bool, commutative: bool, unity: bool, zeroDivisors: bool, inverses: bool)
    requires WellFormed(e, add) && WellFormed(e, mul)
    requires abelian == AbelianGroup(e, add)
    requires associative == Associative(e, mul)
    requires distributive == LeftDistributive(e, add, mul)
    requires commutative == Commutative(e, mul)
    requires unity == IdentityElement(e, mul).Some?
    requires zeroDivisors == ZeroDivisorsExist(e, add, mul)
    requires inverses == Invertible(e, mul)
    ensures Describes(PropertyMap(abelian, associative, distributive, commutative, unity, zeroDivisors, inverses),
                      e, add, mul)
  {
  }

  /** Properties that describe the tables give the ring verdict exactly
      when the tables satisfy the ring laws. */
  lemma RingVerdictIsRing<T>(props: map<RingProperty, bool>, e: seq<T>, add: Table<T>, mul: Table<T>)
    requires WellFormed(e, add) && WellFormed(e, mul) && Describes(props, e, add, mul)
    ensures RingVerdict(props) <==> IsRing(e, add, mul)
  {
  }

  /** The details of every check: the first mismatches of each relation,
      at most three of them, in scan order, and the reports of the abelian,
      unity, zero-divisor and inverse checks. */
  predicate Reports<T(==)>(details: AnalysisDetails<T>, e: seq<T>, add: Table<T>, mul: Table<T>)
    requires WellFormed(e, add) && WellFormed(e, mul)
  {
    && details.abelianAddition == AbelianReport(e, add)
    && details.associativeMultiplication == Capped(Violations(e, Associativity(mul)))
    && details.distributive == Capped(Violations(e, LeftDistributivity(add, mul)))
    && details.commutativeMultiplication == Capped(Findings(e, Commutativity(mul)))
    && details.unity == IdentityReport(e, mul)
    && details.zeroDivisors == ZeroDivisorReportFor(e, add, mul)
    && details.inverses == MultiplicativeInverseReport(e, mul)
  }

  /** Every check of a validated input, in the analyser's order: each
      verdict is the law it checks. */
  method RunChecks<T(==)>(e: seq<T>, add: Table<T>, mul: Table<T>)
    returns (abelian: bool, associative: bool, distributive: bool, commutative: bool,
             unity: Option<Identity<T>>, zeroDivisors: bool, inverses: bool, details: AnalysisDetails<T>)
    requires WellFormed(e, add) && WellFormed(e, mul)
    ensures abelian == AbelianGroup(e, add)
    ensures associative == Associative(e, mul)
    ensures distributive == LeftDistributive(e, add, mul)
    ensures commutative == Commutative(e, mul)
    ensures unity == IdentityReport(e, mul)
    ensures unity.Some? == IdentityElement(e, mul).Some?
    ensures zeroDivisors == ZeroDivisorsExist(e, add, mul)
    ensures inverses == Invertible(e, mul)
    ensures Reports(details, e, add, mul)
  {
    var abelianDetails, associativeDetails, distributiveDetails, commutativeDetails;
    var zeroDivisorDetails, inverseDetails;
    abelian, abelianDetails := CheckAbelianGroup(e, add);
    associative, associativeDetails := CheckAssociativity(e, mul);
    distributive, distributiveDetails := CheckDistributivity(e, add, mul);
    commutative, commutativeDetails := CheckCommutativity(e, mul);
    unity := CheckUnity(e, mul);
    zeroDivisors, zeroDivisorDetails := CheckZeroDivisors(e, add, mul);
    inverses, inverseDetails := CheckMultiplicativeInverses(e, mul);
    details := AnalysisDetails(abelianDetails, associativeDetails, distributiveDetails, commutativeDetails,
                               unity, zeroDivisorDetails, inverseDetails);
  }

  /** A result assembled from properties and details carries their facts. */
  lemma Assembled<T>(result: RingAnalysisResult<T>, props: map<RingProperty, bool>, details: AnalysisDetails<T>,
                     e: seq<T>, add: Table<T>, mul: Table<T>)
    requires WellFormed(e, add) && WellFormed(e, mul)
    requires result == RingAnalysisResult(RingVerdict(props), props, Some(details), [], Classify(props))
    requires Describes(props, e, add, mul) && Reports(details, e, add, mul) && props.Keys == AllProperties
    ensures |result.errorMessages| == 0
    ensures result.properties.Keys == AllProperties
    ensures Describes(result.properties, e, add, mul)
    ensures result.isRing == RingVerdict(result.properties)
    ensures result.classification == Classify(result.properties)
    ensures result.details.Some?
    ensures Reports(result.details.value, e, add, mul)
  {
  }

  /** The analysis of a validated input: every check runs, and the
      properties, the ring verdict and the classification follow from their
      verdicts. */
  method AnalyzeTables<T(==)>(e: seq<T>, add: Table<T>, mul: Table<T>) returns (result: RingAnalysisResult<T>)
    requires WellFormed(e, add) && WellFormed(e, mul)
    ensures |result.errorMessages| == 0
    ensures result.properties.Keys == AllProperties
    ensures Describes(result.properties, e, add, mul)
    ensures result.isRing == RingVerdict(result.properties)
    ensures result.classification == Classify(result.properties)
    ensures result.details.Some?
    ensures Reports(result.details.value, e, add, mul)
  {
    var abelian, associative, distributive, commutative, unity, zeroDivisors, inverses, details :=
      RunChecks(e, add, mul);
    DescribedBy(e, add, mul, abelian, associative, distributive, commutative, unity.Some?, zeroDivisors, inverses);
    var props := PropertyMap(abelian, associative, distributive, commutative, unity.Some?, zeroDivisors, inverses);
    result := RingAnalysisResult(RingVerdict(props), props, Some(details), [], Classify(props));
    Assembled(result, props, details, e, add, mul);
  }

  /** The analyser: validation first; a rejected input gives an error result
      with the one error and no properties; a valid one is analysed. */
  method AnalyzeRing<T(==)>(e: seq<T>, add: Table<T>, mul: Table<T>) returns (result: RingAnalysisResult<T>)
    ensures Validate(e, add, mul).Some? ==>
              result == RingAnalysisResult(false, map[], None, [Validate(e, add, mul).value], AnalysisError)
    ensures Validate(e, add, mul).None? ==>
              && result.errorMessages == []
              && result.properties.Keys == AllProperties
              && Describes(result.properties, e, add, mul)
              && result.isRing == RingVerdict(result.properties)
              && result.classification == Classify(result.properties)
              && result.details.Some?
              && Reports(result.details.value, e, add, mul)
    ensures result.errorMessages == [] <==> Validate(e, add, mul).None?
  {
    var err := ValidateInput(e, add, mul);
    if err.Some? {
      return RingAnalysisResult(false, map[], None, [err.value], AnalysisError);
    }
    result := AnalyzeTables(e, add, mul);
  }
}
