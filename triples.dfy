/** The two relation checks that run over every ordered triple (a, b, c) of
    labels: associativity of one table and left distributivity of
    multiplication over addition. Both compare a left side with a right side,
    walk the triples in lexicographic order of the labels' positions, and
    record each mismatch; they stop as soon as `CounterexampleCap` mismatches
    are recorded. */
module Triples {
  import opened Tables

  datatype TripleLaw<T> =
    | Associativity(table: Table<T>)
    | LeftDistributivity(add: Table<T>, mul: Table<T>)

  /** One recorded mismatch: the operands and the two sides that disagree. */
  datatype TripleCounterexample<T> = TripleCounterexample(a: T, b: T, c: T, left: T, right: T)

  predicate LawWellFormed<T(==)>(e: seq<T>, law: TripleLaw<T>)
  {
    match law
    case Associativity(t) => WellFormed(e, t)
    case LeftDistributivity(add, mul) => WellFormed(e, add) && WellFormed(e, mul)
  }

  /** The two sides the check compares for the operands a, b, c:
      (a op b) op c against a op (b op c), or a*(b+c) against a*b + a*c. */
  function Sides<T(==)>(e: seq<T>, law: TripleLaw<T>, a: T, b: T, c: T): (T, T)
    requires LawWellFormed(e, law) && a in e && b in e && c in e
  {
    match law
    case Associativity(t) =>
      (Apply(e, t, Apply(e, t, a, b), c), Apply(e, t, a, Apply(e, t, b, c)))
    case LeftDistributivity(add, mul) =>
      (Apply(e, mul, a, Apply(e, add, b, c)), Apply(e, add, Apply(e, mul, a, b), Apply(e, mul, a, c)))
  }

  /** The law holds for every triple of labels. */
  predicate Holds<T(==)>(e: seq<T>, law: TripleLaw<T>)
    requires LawWellFormed(e, law)
  {
    forall a, b, c {:trigger Sides(e, law, a, b, c)} ::
      a in e && b in e && c in e ==> Sides(e, law, a, b, c).0 == Sides(e, law, a, b, c).1
  }

  /** `v` reports a real mismatch of the law. */
  predicate Genuine<T(==)>(e: seq<T>, law: TripleLaw<T>, v: TripleCounterexample<T>)
    requires LawWellFormed(e, law)
  {
    && v.a in e && v.b in e && v.c in e
    && (v.left, v.right) == Sides(e, law, v.a, v.b, v.c)
    && v.left != v.right
  }

  /** What the check records at positions (i, j, k): one counterexample or nothing. */
  function FindingAt<T(==)>(e: seq<T>, law: TripleLaw<T>, i: nat, j: nat, k: nat): seq<TripleCounterexample<T>>
    requires LawWellFormed(e, law) && i < |e| && j < |e| && k < |e|
  {
    var s := Sides(e, law, e[i], e[j], e[k]);
    if s.0 != s.1 then [TripleCounterexample(e[i], e[j], e[k], s.0, s.1)] else []
  }

  /** The findings at (i, j, 0), (i, j, 1), ... */
  function ThirdLevel<T(==)>(e: seq<T>, law: TripleLaw<T>, i: nat, j: nat): (r: seq<seq<TripleCounterexample<T>>>)
    requires LawWellFormed(e, law) && i < |e| && j < |e|
    ensures |r| == |e|
  {
    seq(|e|, k requires 0 <= k < |e| => FindingAt(e, law, i, j, k))
  }

  /** The findings at (i, 0, _), (i, 1, _), ... */
  function SecondLevel<T(==)>(e: seq<T>, law: TripleLaw<T>, i: nat): (r: seq<seq<TripleCounterexample<T>>>)
    requires LawWellFormed(e, law) && i < |e|
    ensures |r| == |e|
  {
    seq(|e|, j requires 0 <= j < |e| => Flatten(ThirdLevel(e, law, i, j)))
  }

  /** The findings at (0, _, _), (1, _, _), ... */
  function FirstLevel<T(==)>(e: seq<T>, law: TripleLaw<T>): (r: seq<seq<TripleCounterexample<T>>>)
    requires LawWellFormed(e, law)
    ensures |r| == |e|
  {
    seq(|e|, i requires 0 <= i < |e| => Flatten(SecondLevel(e, law, i)))
  }

  /** Every mismatch of the law, in lexicographic order of positions. */
  function Violations<T(==)>(e: seq<T>, law: TripleLaw<T>): seq<TripleCounterexample<T>>
    requires LawWellFormed(e, law)
  {
    Flatten(FirstLevel(e, law))
  }

  /** The mismatches at triples lexicographically before (i, j, k). */
  function Front<T(==)>(e: seq<T>, law: TripleLaw<T>, i: nat, j: nat): seq<TripleCounterexample<T>>
    requires LawWellFormed(e, law) && i < |e| && j < |e|
  {
    Flatten(FirstLevel(e, law)[..i]) + Flatten(SecondLevel(e, law, i)[..j])
  }

  /** The mismatches before (i, j, k), followed by the one at (i, j, k) if
      any, are the beginning of the full list: the list is in lexicographic
      order. */
  lemma BeforeIsPrefix<T>(e: seq<T>, law: TripleLaw<T>, i: nat, j: nat, k: nat)
    requires LawWellFormed(e, law) && i < |e| && j < |e| && k < |e|
    ensures IsPrefix((Front(e, law, i, j) + Flatten(ThirdLevel(e, law, i, j)[..k])) + ThirdLevel(e, law, i, j)[k],
                     Violations(e, law))
  {
    var first, second, third := FirstLevel(e, law), SecondLevel(e, law, i), ThirdLevel(e, law, i, j);
    var p, q := Flatten(first[..i]), Flatten(second[..j]);
    FlattenThroughBehind(p + q, third, k);
    assert second[j] == Flatten(third);
    FlattenThroughBehind(p, second, j);
    PrefixTransitive(((p + q) + Flatten(third[..k])) + third[k], (p + q) + second[j], p + Flatten(second));
    assert first[i] == Flatten(second);
    FlattenThrough(first, i);
    PrefixTransitive(((p + q) + Flatten(third[..k])) + third[k], p + first[i], Violations(e, law));
  }

  /** Whatever is recorded at (i, j, k) is in the full list. */
  lemma ViolationRecorded<T>(e: seq<T>, law: TripleLaw<T>, i: nat, j: nat, k: nat, v: TripleCounterexample<T>)
    requires LawWellFormed(e, law) && i < |e| && j < |e| && k < |e|
    requires v in FindingAt(e, law, i, j, k)
    ensures v in Violations(e, law)
  {
    var first, second, third := FirstLevel(e, law), SecondLevel(e, law, i), ThirdLevel(e, law, i, j);
    assert v in third[k];
    FlattenMember(third, v);
    assert v in second[j];
    FlattenMember(second, v);
    assert v in first[i];
    FlattenMember(first, v);
  }

  /** Each item of the full list was recorded at some triple of positions. */
  lemma ViolationSource<T>(e: seq<T>, law: TripleLaw<T>, v: TripleCounterexample<T>) returns (i: nat, j: nat, k: nat)
    requires LawWellFormed(e, law) && v in Violations(e, law)
    ensures i < |e| && j < |e| && k < |e| && v in FindingAt(e, law, i, j, k)
  {
    var first := FirstLevel(e, law);
    FlattenMember(first, v);
    i :| 0 <= i < |e| && v in first[i];
    var second := SecondLevel(e, law, i);
    FlattenMember(second, v);
    j :| 0 <= j < |e| && v in second[j];
    var third := ThirdLevel(e, law, i, j);
    FlattenMember(third, v);
    k :| 0 <= k < |e| && v in third[k];
  }

  /** Every reported counterexample is a real mismatch of the law. */
  lemma ViolationsGenuine<T>(e: seq<T>, law: TripleLaw<T>)
    requires LawWellFormed(e, law)
    ensures forall v :: v in Violations(e, law) ==> Genuine(e, law, v)
  {
    forall v | v in Violations(e, law) ensures Genuine(e, law, v)
    {
      var i, j, k := ViolationSource(e, law, v);
    }
  }

  /** The full list is empty exactly when the law holds. */
  lemma ViolationsEmptyIff<T>(e: seq<T>, law: TripleLaw<T>)
    requires LawWellFormed(e, law)
    ensures Violations(e, law) == [] <==> Holds(e, law)
  {
    if Violations(e, law) == [] {
      forall a, b, c | a in e && b in e && c in e
        ensures Sides(e, law, a, b, c).0 == Sides(e, law, a, b, c).1
      {
        var i :| 0 <= i < |e| && e[i] == a;
        var j :| 0 <= j < |e| && e[j] == b;
        var k :| 0 <= k < |e| && e[k] == c;
        var here := FindingAt(e, law, i, j, k);
        if here != [] {
          ViolationRecorded(e, law, i, j, k, here[0]);
        }
      }
    } else {
      var i, j, k := ViolationSource(e, law, Violations(e, law)[0]);
    }
  }

  /** What a capped report says about the law. */
  lemma CappedViolations<T>(e: seq<T>, law: TripleLaw<T>, found: seq<TripleCounterexample<T>>)
    requires LawWellFormed(e, law) && found == Capped(Violations(e, law))
    ensures forall v :: v in found ==> Genuine(e, law, v)
    ensures found == [] <==> Holds(e, law)
  {
    ViolationsEmptyIff(e, law);
    ViolationsGenuine(e, law);
  }

  /** The innermost loop: walks (i, j, 0), (i, j, 1), ... appending to
      `start`, and stops as soon as the cap is reached; when it stops, `k` is
      the position it stopped at. */
  method ScanThird<T(==)>(e: seq<T>, law: TripleLaw<T>, i: nat, j: nat, start: seq<TripleCounterexample<T>>)
    returns (found: seq<TripleCounterexample<T>>, stopped: bool, ghost k: nat)
    requires LawWellFormed(e, law) && i < |e| && j < |e| && |start| < CounterexampleCap
    ensures stopped ==> (k < |e| && |found| == CounterexampleCap &&
                         found == (start + Flatten(ThirdLevel(e, law, i, j)[..k])) + ThirdLevel(e, law, i, j)[k])
    ensures !stopped ==> found == start + Flatten(ThirdLevel(e, law, i, j)) && |found| < CounterexampleCap
  {
    var third := ThirdLevel(e, law, i, j);
    assert third[..0] == [];
    found, stopped, k := start, false, 0;
    var c := 0;
    while c < |e|
      invariant 0 <= c <= |e|
      invariant found == start + Flatten(third[..c]) && |found| < CounterexampleCap
    {
      var here := FindingAt(e, law, i, j, c);
      assert here == third[c] && |here| <= 1;
      if here != [] && |found| + 1 == CounterexampleCap {
        found, stopped, k := found + here, true, c;
        return;
      }
      FlattenExtend(start, third, c);
      found := found + here;
      c := c + 1;
    }
    assert third[..|e|] == third;
  }

  /** Appending the mismatches of (i, b, _) extends the middle loop's list
      by one more position. */
  lemma SecondStep<T>(e: seq<T>, law: TripleLaw<T>, i: nat, b: nat, start: seq<TripleCounterexample<T>>)
    requires LawWellFormed(e, law) && i < |e| && b < |e|
    ensures (start + Flatten(SecondLevel(e, law, i)[..b])) + Flatten(ThirdLevel(e, law, i, b)) ==
            start + Flatten(SecondLevel(e, law, i)[..b + 1])
  {
    assert SecondLevel(e, law, i)[b] == Flatten(ThirdLevel(e, law, i, b));
    FlattenExtend(start, SecondLevel(e, law, i), b);
  }

  /** The middle loop: walks (i, 0, _), (i, 1, _), ... appending to `start`. */
  method ScanSecond<T(==)>(e: seq<T>, law: TripleLaw<T>, i: nat, start: seq<TripleCounterexample<T>>)
    returns (found: seq<TripleCounterexample<T>>, stopped: bool, ghost j: nat, ghost k: nat)
    requires LawWellFormed(e, law) && i < |e| && |start| < CounterexampleCap
    ensures stopped ==> (j < |e| && k < |e| && |found| == CounterexampleCap &&
                         found == ((start + Flatten(SecondLevel(e, law, i)[..j])) +
                                   Flatten(ThirdLevel(e, law, i, j)[..k])) + ThirdLevel(e, law, i, j)[k])
    ensures !stopped ==> found == start + Flatten(SecondLevel(e, law, i)) && |found| < CounterexampleCap
  {
    var second := SecondLevel(e, law, i);
    assert second[..0] == [];
    found, stopped, j, k := start, false, 0, 0;
    var b := 0;
    while b < |e|
      invariant 0 <= b <= |e|
      invariant found == start + Flatten(second[..b]) && |found| < CounterexampleCap
    {
      found, stopped, k := ScanThird(e, law, i, b, found);
      if stopped {
        j := b;
        return;
      }
      SecondStep(e, law, i, b, start);
      b := b + 1;
    }
    assert second[..|e|] == second;
  }

  /** Walks every triple in lexicographic order, recording mismatches and
      stopping once `CounterexampleCap` of them are recorded. */
  method ScanTriples<T(==)>(e: seq<T>, law: TripleLaw<T>) returns (found: seq<TripleCounterexample<T>>)
    requires LawWellFormed(e, law)
    ensures found == Capped(Violations(e, law))
    ensures |found| <= CounterexampleCap
    ensures forall v :: v in found ==> Genuine(e, law, v)
    ensures found == [] <==> Holds(e, law)
  {
    var first := FirstLevel(e, law);
    assert first[..0] == [];
    found := [];
    var i := 0;
    while i < |e|
      invariant 0 <= i <= |e|
      invariant found == Flatten(first[..i]) && |found| < CounterexampleCap
    {
      var stopped;
      ghost var start, j, k := found, 0, 0;
      found, stopped, j, k := ScanSecond(e, law, i, found);
      if stopped {
        assert start + Flatten(SecondLevel(e, law, i)[..j]) == Front(e, law, i, j);
        BeforeIsPrefix(e, law, i, j, k);
        CappedPrefix(found, Violations(e, law));
        CappedViolations(e, law, found);
        return;
      }
      FlattenStep(first, i);
      i := i + 1;
    }
    assert first[..|e|] == first;
    CappedViolations(e, law, found);
  }
}
