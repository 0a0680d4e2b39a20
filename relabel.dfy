/** Renaming the labels. The analyser only compares labels for equality and
    looks them up through the label-to-position dictionary, so renaming every
    label consistently, in the label list and in both tables, changes no
    verdict and no classification. A renaming is a function on labels that
    keeps different labels different. */
module Relabel {
  import opened Tables
  import opened Pairs
  import opened Analysis

  /** Every label of `e` renamed by `f`, positions kept. */
  function Rename<T, U>(f: T -> U, e: seq<T>): (r: seq<U>)
    ensures |r| == |e|
    ensures forall i :: 0 <= i < |e| ==> r[i] == f(e[i])
  {
    seq(|e|, i requires 0 <= i < |e| => f(e[i]))
  }

  /** Every entry of `t` renamed by `f`, positions kept. */
  function RenameTable<T, U>(f: T -> U, t: Table<T>): (r: Table<U>)
    ensures |r| == |t|
    ensures forall i :: 0 <= i < |t| ==> r[i] == Rename(f, t[i])
  {
    seq(|t|, i requires 0 <= i < |t| => Rename(f, t[i]))
  }

  /** `f` keeps the labels of `e` apart. */
  predicate Injective<T(==), U(==)>(f: T -> U, e: seq<T>)
  {
    forall x, y :: x in e && y in e && f(x) == f(y) ==> x == y
  }

  /** A renamed label is among the renamed labels. */
  lemma RenamedIn<T, U>(f: T -> U, e: seq<T>, x: T)
    requires x in e
    ensures f(x) in Rename(f, e)
  {
    var i :| 0 <= i < |e| && e[i] == x;
    assert Rename(f, e)[i] == f(x);
  }

  /** Every renamed label is the renaming of a label. */
  lemma Preimage<T, U>(f: T -> U, e: seq<T>, y: U) returns (x: T)
    requires y in Rename(f, e)
    ensures x in e && f(x) == y
  {
    var i :| 0 <= i < |e| && Rename(f, e)[i] == y;
    x := e[i];
  }

  /** The dictionary gives a renamed label the position of the original. */
  lemma RenamedIndex<T, U>(f: T -> U, e: seq<T>, x: T)
    requires Injective(f, e) && x in e
    ensures f(x) in Rename(f, e)
    ensures IndexOf(Rename(f, e), f(x)) == IndexOf(e, x)
  {
    RenamedIn(f, e, x);
    var r, k := IndexOf(e, x), IndexOf(Rename(f, e), f(x));
    assert Rename(f, e)[r] == f(x);
    assert f(e[k]) == f(x);
  }

  /** Renaming keeps validated tables validated. */
  lemma RenamedWellFormed<T, U>(f: T -> U, e: seq<T>, t: Table<T>)
    requires WellFormed(e, t)
    ensures WellFormed(Rename(f, e), RenameTable(f, t))
  {
    var t' := RenameTable(f, t);
    forall i, j | 0 <= i < |t'| && 0 <= j < |t'[i]|
      ensures t'[i][j] in Rename(f, e)
    {
      RenamedIn(f, e, t[i][j]);
    }
  }

  /** A renamed product is the renaming of the product. */
  lemma RenamedApply<T, U>(f: T -> U, e: seq<T>, t: Table<T>, x: T, y: T)
    requires Injective(f, e) && WellFormed(e, t) && x in e && y in e
    ensures WellFormed(Rename(f, e), RenameTable(f, t)) && f(x) in Rename(f, e) && f(y) in Rename(f, e)
    ensures Apply(Rename(f, e), RenameTable(f, t), f(x), f(y)) == f(Apply(e, t, x, y))
  {
    RenamedWellFormed(f, e, t);
    RenamedIndex(f, e, x);
    RenamedIndex(f, e, y);
  }

  /** A triple associates after renaming exactly when it did before. */
  lemma RenamedAssociatesAt<T, U>(f: T -> U, e: seq<T>, t: Table<T>, a: T, b: T, c: T)
    requires Injective(f, e) && WellFormed(e, t) && a in e && b in e && c in e
    ensures WellFormed(Rename(f, e), RenameTable(f, t))
    ensures f(a) in Rename(f, e) && f(b) in Rename(f, e) && f(c) in Rename(f, e)
    ensures AssociatesAt(Rename(f, e), RenameTable(f, t), f(a), f(b), f(c)) <==> AssociatesAt(e, t, a, b, c)
  {
    RenamedApply(f, e, t, a, b);
    RenamedApply(f, e, t, b, c);
    RenamedApply(f, e, t, Apply(e, t, a, b), c);
    RenamedApply(f, e, t, a, Apply(e, t, b, c));
  }

  /** Renaming keeps associativity, and its failure. */
  lemma RenamedAssociative<T, U>(f: T -> U, e: seq<T>, t: Table<T>)
    requires Injective(f, e) && WellFormed(e, t)
    ensures WellFormed(Rename(f, e), RenameTable(f, t))
    ensures Associative(Rename(f, e), RenameTable(f, t)) <==> Associative(e, t)
  {
    var e', t' := Rename(f, e), RenameTable(f, t);
    RenamedWellFormed(f, e, t);
    if Associative(e, t) {
      forall a', b', c' | a' in e' && b' in e' && c' in e'
        ensures AssociatesAt(e', t', a', b', c')
      {
        var a := Preimage(f, e, a');
        var b := Preimage(f, e, b');
        var c := Preimage(f, e, c');
        RenamedAssociatesAt(f, e, t, a, b, c);
      }
    } else {
      var a, b, c :| a in e && b in e && c in e && !AssociatesAt(e, t, a, b, c);
      RenamedAssociatesAt(f, e, t, a, b, c);
    }
  }

  /** A pair commutes after renaming exactly when it did before. */
  lemma RenamedCommutesAt<T, U>(f: T -> U, e: seq<T>, t: Table<T>, a: T, b: T)
    requires Injective(f, e) && WellFormed(e, t) && a in e && b in e
    ensures WellFormed(Rename(f, e), RenameTable(f, t)) && f(a) in Rename(f, e) && f(b) in Rename(f, e)
    ensures CommutesAt(Rename(f, e), RenameTable(f, t), f(a), f(b)) <==> CommutesAt(e, t, a, b)
  {
    RenamedApply(f, e, t, a, b);
    RenamedApply(f, e, t, b, a);
  }

  /** Renaming keeps commutativity, and its failure. */
  lemma RenamedCommutative<T, U>(f: T -> U, e: seq<T>, t: Table<T>)
    requires Injective(f, e) && WellFormed(e, t)
    ensures WellFormed(Rename(f, e), RenameTable(f, t))
    ensures Commutative(Rename(f, e), RenameTable(f, t)) <==> Commutative(e, t)
  {
    var e', t' := Rename(f, e), RenameTable(f, t);
    RenamedWellFormed(f, e, t);
    if Commutative(e, t) {
      forall a', b' | a' in e' && b' in e'
        ensures CommutesAt(e', t', a', b')
      {
        var a := Preimage(f, e, a');
        var b := Preimage(f, e, b');
        RenamedCommutesAt(f, e, t, a, b);
      }
    } else {
      var a, b :| a in e && b in e && !CommutesAt(e, t, a, b);
      RenamedCommutesAt(f, e, t, a, b);
    }
  }

  /** A triple distributes after renaming exactly when it did before. */
  lemma RenamedDistributesAt<T, U>(f: T -> U, e: seq<T>, add: Table<T>, mul: Table<T>, a: T, b: T, c: T)
    requires Injective(f, e) && WellFormed(e, add) && WellFormed(e, mul) && a in e && b in e && c in e
    ensures WellFormed(Rename(f, e), RenameTable(f, add)) && WellFormed(Rename(f, e), RenameTable(f, mul))
    ensures f(a) in Rename(f, e) && f(b) in Rename(f, e) && f(c) in Rename(f, e)
    ensures DistributesAt(Rename(f, e), RenameTable(f, add), RenameTable(f, mul), f(a), f(b), f(c)) <==>
            DistributesAt(e, add, mul, a, b, c)
  {
    RenamedApply(f, e, add, b, c);
    RenamedApply(f, e, mul, a, Apply(e, add, b, c));
    RenamedApply(f, e, mul, a, b);
    RenamedApply(f, e, mul, a, c);
    RenamedApply(f, e, add, Apply(e, mul, a, b), Apply(e, mul, a, c));
  }

  /** Renaming keeps left distributivity, and its failure. */
  lemma RenamedLeftDistributive<T, U>(f: T -> U, e: seq<T>, add: Table<T>, mul: Table<T>)
    requires Injective(f, e) && WellFormed(e, add) && WellFormed(e, mul)
    ensures WellFormed(Rename(f, e), RenameTable(f, add)) && WellFormed(Rename(f, e), RenameTable(f, mul))
    ensures LeftDistributive(Rename(f, e), RenameTable(f, add), RenameTable(f, mul)) <==>
            LeftDistributive(e, add, mul)
  {
    var e', add', mul' := Rename(f, e), RenameTable(f, add), RenameTable(f, mul);
    RenamedWellFormed(f, e, add);
    RenamedWellFormed(f, e, mul);
    if LeftDistributive(e, add, mul) {
      forall a', b', c' | a' in e' && b' in e' && c' in e'
        ensures DistributesAt(e', add', mul', a', b', c')
      {
        var a := Preimage(f, e, a');
        var b := Preimage(f, e, b');
        var c := Preimage(f, e, c');
        RenamedDistributesAt(f, e, add, mul, a, b, c);
      }
    } else {
      var a, b, c :| a in e && b in e && c in e && !DistributesAt(e, add, mul, a, b, c);
      RenamedDistributesAt(f, e, add, mul, a, b, c);
    }
  }

  /** A label is an identity after renaming exactly when it was before. */
  lemma RenamedIsIdentity<T, U>(f: T -> U, e: seq<T>, t: Table<T>, z: T)
    requires Injective(f, e) && WellFormed(e, t) && z in e
    ensures WellFormed(Rename(f, e), RenameTable(f, t)) && f(z) in Rename(f, e)
    ensures IsIdentity(Rename(f, e), RenameTable(f, t), f(z)) <==> IsIdentity(e, t, z)
  {
    var e', t' := Rename(f, e), RenameTable(f, t);
    RenamedWellFormed(f, e, t);
    RenamedIn(f, e, z);
    if IsIdentity(e, t, z) {
      forall x' | x' in e'
        ensures Apply(e', t', f(z), x') == x' && Apply(e', t', x', f(z)) == x'
      {
        var x := Preimage(f, e, x');
        RenamedApply(f, e, t, z, x);
        RenamedApply(f, e, t, x, z);
      }
    } else {
      var x :| x in e && !(Apply(e, t, z, x) == x && Apply(e, t, x, z) == x);
      RenamedApply(f, e, t, z, x);
      RenamedApply(f, e, t, x, z);
    }
  }

  /** The identity search stops at the same position after renaming. */
  lemma {:induction false} RenamedFirstIdentity<T, U>(f: T -> U, e: seq<T>, t: Table<T>, k: nat)
    requires Injective(f, e) && WellFormed(e, t) && k <= |e|
    ensures WellFormed(Rename(f, e), RenameTable(f, t))
    ensures FirstIdentity(Rename(f, e), RenameTable(f, t), k) == FirstIdentity(e, t, k)
    decreases |e| - k
  {
    RenamedWellFormed(f, e, t);
    if k < |e| {
      RenamedIsIdentity(f, e, t, e[k]);
      RenamedFirstIdentity(f, e, t, k + 1);
    }
  }

  /** The identity found after renaming is the renamed identity. */
  lemma RenamedIdentityElement<T, U>(f: T -> U, e: seq<T>, t: Table<T>)
    requires Injective(f, e) && WellFormed(e, t)
    ensures WellFormed(Rename(f, e), RenameTable(f, t))
    ensures IdentityElement(Rename(f, e), RenameTable(f, t)).Some? == IdentityElement(e, t).Some?
    ensures IdentityElement(e, t).Some? ==>
              IdentityElement(Rename(f, e), RenameTable(f, t)).value == f(IdentityElement(e, t).value)
  {
    RenamedFirstIdentity(f, e, t, 0);
  }

  /** A label has an inverse after renaming exactly when it had one before. */
  lemma RenamedHasInverse<T, U>(f: T -> U, e: seq<T>, t: Table<T>, z: T, x: T)
    requires Injective(f, e) && WellFormed(e, t) && z in e && x in e
    ensures WellFormed(Rename(f, e), RenameTable(f, t)) && f(x) in Rename(f, e)
    ensures HasInverse(Rename(f, e), RenameTable(f, t), f(z), f(x)) <==> HasInverse(e, t, z, x)
  {
    var e', t' := Rename(f, e), RenameTable(f, t);
    RenamedWellFormed(f, e, t);
    RenamedIn(f, e, x);
    if HasInverse(e, t, z, x) {
      var y :| y in e && IsInverse(e, t, z, x, y);
      RenamedApply(f, e, t, x, y);
      RenamedApply(f, e, t, y, x);
      assert IsInverse(e', t', f(z), f(x), f(y));
    } else if HasInverse(e', t', f(z), f(x)) {
      var y' :| y' in e' && IsInverse(e', t', f(z), f(x), y');
      var y := Preimage(f, e, y');
      RenamedApply(f, e, t, x, y);
      RenamedApply(f, e, t, y, x);
      assert IsInverse(e, t, z, x, y);
    }
  }

  /** Renaming keeps every label invertible, or keeps one that is not. */
  lemma RenamedAllInvertible<T, U>(f: T -> U, e: seq<T>, t: Table<T>, z: T)
    requires Injective(f, e) && WellFormed(e, t) && z in e
    ensures WellFormed(Rename(f, e), RenameTable(f, t))
    ensures AllInvertible(Rename(f, e), RenameTable(f, t), f(z)) <==> AllInvertible(e, t, z)
  {
    var e', t' := Rename(f, e), RenameTable(f, t);
    RenamedWellFormed(f, e, t);
    if AllInvertible(e, t, z) {
      forall x' | x' in e'
        ensures HasInverse(e', t', f(z), x')
      {
        var x := Preimage(f, e, x');
        RenamedHasInverse(f, e, t, z, x);
      }
    } else {
      var x :| x in e && !HasInverse(e, t, z, x);
      RenamedHasInverse(f, e, t, z, x);
    }
  }

  /** A pair divides zero after renaming exactly when it did before. */
  lemma RenamedZeroProduct<T, U>(f: T -> U, e: seq<T>, mul: Table<T>, z: T, a: T, b: T)
    requires Injective(f, e) && WellFormed(e, mul) && z in e && a in e && b in e
    ensures WellFormed(Rename(f, e), RenameTable(f, mul))
    ensures f(z) in Rename(f, e) && f(a) in Rename(f, e) && f(b) in Rename(f, e)
    ensures Flagged(Rename(f, e), ZeroProducts(RenameTable(f, mul), f(z)), f(a), f(b)) <==>
            Flagged(e, ZeroProducts(mul, z), a, b)
  {
    RenamedIn(f, e, z);
    RenamedApply(f, e, mul, a, b);
  }

  /** Renaming keeps zero divisors, and their absence. */
  lemma RenamedZeroDivisors<T, U>(f: T -> U, e: seq<T>, add: Table<T>, mul: Table<T>)
    requires Injective(f, e) && WellFormed(e, add) && WellFormed(e, mul)
    ensures WellFormed(Rename(f, e), RenameTable(f, add)) && WellFormed(Rename(f, e), RenameTable(f, mul))
    ensures ZeroDivisorsExist(Rename(f, e), RenameTable(f, add), RenameTable(f, mul)) <==>
            ZeroDivisorsExist(e, add, mul)
  {
    var e', add', mul' := Rename(f, e), RenameTable(f, add), RenameTable(f, mul);
    RenamedIdentityElement(f, e, add);
    RenamedWellFormed(f, e, mul);
    if IdentityElement(e, add).Some? {
      var z := IdentityElement(e, add).value;
      assert IdentityElement(e', add').value == f(z);
      if ZeroDivisorsExist(e, add, mul) {
        var a, b :| a in e && b in e && Flagged(e, ZeroProducts(mul, z), a, b);
        RenamedZeroProduct(f, e, mul, z, a, b);
      } else if ZeroDivisorsExist(e', add', mul') {
        var a', b' :| a' in e' && b' in e' && Flagged(e', ZeroProducts(mul', f(z)), a', b');
        var a := Preimage(f, e, a');
        var b := Preimage(f, e, b');
        RenamedZeroProduct(f, e, mul, z, a, b);
      }
    }
  }

  /** Renaming keeps an abelian group, and its failure. */
  lemma RenamedAbelianGroup<T, U>(f: T -> U, e: seq<T>, t: Table<T>)
    requires Injective(f, e) && WellFormed(e, t)
    ensures WellFormed(Rename(f, e), RenameTable(f, t))
    ensures AbelianGroup(Rename(f, e), RenameTable(f, t)) <==> AbelianGroup(e, t)
  {
    RenamedAssociative(f, e, t);
    RenamedCommutative(f, e, t);
    RenamedIdentityElement(f, e, t);
    if IdentityElement(e, t).Some? {
      RenamedAllInvertible(f, e, t, IdentityElement(e, t).value);
    }
  }

  /** Renaming keeps a multiplication with every label invertible, and its
      failure. */
  lemma RenamedInvertible<T, U>(f: T -> U, e: seq<T>, mul: Table<T>)
    requires Injective(f, e) && WellFormed(e, mul)
    ensures WellFormed(Rename(f, e), RenameTable(f, mul))
    ensures Invertible(Rename(f, e), RenameTable(f, mul)) <==> Invertible(e, mul)
  {
    RenamedIdentityElement(f, e, mul);
    if IdentityElement(e, mul).Some? {
      RenamedAllInvertible(f, e, mul, IdentityElement(e, mul).value);
    }
  }

  /** Renaming the labels consistently changes none of the seven verdicts. */
  lemma RelabelKeepsVerdicts<T, U>(f: T -> U, e: seq<T>, add: Table<T>, mul: Table<T>)
    requires Injective(f, e) && WellFormed(e, add) && WellFormed(e, mul)
    ensures WellFormed(Rename(f, e), RenameTable(f, add)) && WellFormed(Rename(f, e), RenameTable(f, mul))
    ensures AbelianGroup(Rename(f, e), RenameTable(f, add)) == AbelianGroup(e, add)
    ensures Associative(Rename(f, e), RenameTable(f, mul)) == Associative(e, mul)
    ensures LeftDistributive(Rename(f, e), RenameTable(f, add), RenameTable(f, mul)) ==
            LeftDistributive(e, add, mul)
    ensures Commutative(Rename(f, e), RenameTable(f, mul)) == Commutative(e, mul)
    ensures IdentityElement(Rename(f, e), RenameTable(f, mul)).Some? == IdentityElement(e, mul).Some?
    ensures ZeroDivisorsExist(Rename(f, e), RenameTable(f, add), RenameTable(f, mul)) ==
            ZeroDivisorsExist(e, add, mul)
    ensures Invertible(Rename(f, e), RenameTable(f, mul)) == Invertible(e, mul)
  {
    RenamedAbelianGroup(f, e, add);
    RenamedAssociative(f, e, mul);
    RenamedCommutative(f, e, mul);
    RenamedLeftDistributive(f, e, add, mul);
    RenamedIdentityElement(f, e, mul);
    RenamedInvertible(f, e, mul);
    RenamedZeroDivisors(f, e, add, mul);
  }

  /** Properties describing the tables and properties describing their
      renaming give the same ring verdict and the same classification. */
  lemma RelabelKeepsClassification<T, U>(f: T -> U, e: seq<T>, add: Table<T>, mul: Table<T>,
                                         props: map<RingProperty, bool>, renamed: map<RingProperty, bool>)
    requires Injective(f, e) && WellFormed(e, add) && WellFormed(e, mul)
    requires WellFormed(Rename(f, e), RenameTable(f, add)) && WellFormed(Rename(f, e), RenameTable(f, mul))
    requires Describes(props, e, add, mul)
    requires Describes(renamed, Rename(f, e), RenameTable(f, add), RenameTable(f, mul))
    ensures RingVerdict(renamed) == RingVerdict(props)
    ensures Classify(renamed) == Classify(props)
  {
    RelabelKeepsVerdicts(f, e, add, mul);
  }
}
