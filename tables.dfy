/** Operation tables over a finite, ordered list of element labels, and the
    algebraic laws the analyser checks, stated once over labels.

    A table is a list of rows; `t[i][j]` is the i-th element combined with the
    j-th element (row = left operand, column = right operand). The analyser
    never works on positions directly: every checker first builds a
    label-to-position dictionary and looks both operands up in it. */
module Tables {

  datatype Option<T> = None | Some(value: T)

  type Table<T> = seq<seq<T>>

  /** Most counterexamples a relation check reports before it stops. */
  const CounterexampleCap: nat := 3

  /** The first `CounterexampleCap` items of `s`, or all of them when there are fewer. */
  function Capped<X>(s: seq<X>): (r: seq<X>)
    ensures |r| == if |s| < CounterexampleCap then |s| else CounterexampleCap
    ensures r == s[..|r|]
  {
    if |s| <= CounterexampleCap then s else s[..CounterexampleCap]
  }

  /** `s` is the beginning of `t`. */
  ghost predicate IsPrefix<X>(s: seq<X>, t: seq<X>)
  {
    |s| <= |t| && t[..|s|] == s
  }

  lemma AppendAssociative<X>(a: seq<X>, b: seq<X>, c: seq<X>)
    ensures (a + b) + c == a + (b + c)
  {
  }

  /** Cutting the end off a prefix leaves a prefix. */
  lemma PrefixOfLonger<X>(s: seq<X>, t: seq<X>, w: seq<X>, u: seq<X>)
    requires w == s + t && IsPrefix(w, u)
    ensures IsPrefix(s, u)
  {
    assert u[..|s|] == (s + t)[..|s|];
  }

  /** Extending both sides of a prefix by the same front keeps it a prefix. */
  lemma PrefixUnderFront<X>(p: seq<X>, s: seq<X>, u: seq<X>)
    requires IsPrefix(s, u)
    ensures IsPrefix(p + s, p + u)
  {
    assert (p + u)[..|p + s|] == p + u[..|s|];
  }

  lemma PrefixTransitive<X>(s: seq<X>, t: seq<X>, u: seq<X>)
    requires IsPrefix(s, t) && IsPrefix(t, u)
    ensures IsPrefix(s, u)
  {
    assert u[..|s|] == u[..|t|][..|s|];
  }

  /** A prefix of full length is what the cap keeps. */
  lemma CappedPrefix<X>(w: seq<X>, u: seq<X>)
    requires IsPrefix(w, u) && |w| == CounterexampleCap
    ensures w == Capped(u)
  {
  }

  /** A non-empty prefix is the shorter prefix followed by its last item. */
  lemma TakeLast<X>(s: seq<X>, n: nat)
    requires 0 < n <= |s|
    ensures s[..n] == s[..n - 1] + [s[n - 1]]
  {
  }

  /** The concatenation of the lists in `ss`, in order. */
  function Flatten<X>(ss: seq<seq<X>>): seq<X>
  {
    if ss == [] then [] else Flatten(ss[..|ss| - 1]) + ss[|ss| - 1]
  }

  lemma FlattenStep<X>(ss: seq<seq<X>>, m: nat)
    requires m < |ss|
    ensures Flatten(ss[..m + 1]) == Flatten(ss[..m]) + ss[m]
  {
    assert ss[..m + 1][..m] == ss[..m];
  }

  /** Appending the next list, behind a common front `p`. */
  lemma FlattenExtend<X>(p: seq<X>, ss: seq<seq<X>>, m: nat)
    requires m < |ss|
    ensures (p + Flatten(ss[..m])) + ss[m] == p + Flatten(ss[..m + 1])
  {
    FlattenStep(ss, m);
    AppendAssociative(p, Flatten(ss[..m]), ss[m]);
  }

  /** Flattening the first `m` lists gives the beginning of the whole flattening. */
  lemma {:induction false} FlattenPrefix<X>(ss: seq<seq<X>>, m: nat)
    requires m <= |ss|
    ensures IsPrefix(Flatten(ss[..m]), Flatten(ss))
    decreases |ss| - m
  {
    if m < |ss| {
      FlattenPrefix(ss, m + 1);
      FlattenStep(ss, m);
      PrefixOfLonger(Flatten(ss[..m]), ss[m], Flatten(ss[..m + 1]), Flatten(ss));
    } else {
      assert ss[..m] == ss;
    }
  }

  /** The lists before position `m`, then the one at `m`, begin the flattening. */
  lemma FlattenThrough<X>(ss: seq<seq<X>>, m: nat)
    requires m < |ss|
    ensures IsPrefix(Flatten(ss[..m]) + ss[m], Flatten(ss))
  {
    FlattenStep(ss, m);
    FlattenPrefix(ss, m + 1);
  }

  /** The same, behind a common front `p`. */
  lemma FlattenThroughBehind<X>(p: seq<X>, ss: seq<seq<X>>, m: nat)
    requires m < |ss|
    ensures IsPrefix((p + Flatten(ss[..m])) + ss[m], p + Flatten(ss))
  {
    FlattenThrough(ss, m);
    PrefixUnderFront(p, Flatten(ss[..m]) + ss[m], Flatten(ss));
    AppendAssociative(p, Flatten(ss[..m]), ss[m]);
  }

  /** An item of the flattening is an item of one of the lists, and back. */
  lemma {:induction false} FlattenMember<X>(ss: seq<seq<X>>, x: X)
    ensures x in Flatten(ss) <==> exists m :: 0 <= m < |ss| && x in ss[m]
  {
    if ss != [] {
      var init := ss[..|ss| - 1];
      FlattenMember(init, x);
      assert forall m :: 0 <= m < |init| ==> init[m] == ss[m];
    }
  }

  /** The position the label-to-position dictionary stores for `x`. The
      dictionary is built by enumerating the labels, so a repeated label keeps
      its LAST position. */
  function IndexOf<T(==)>(e: seq<T>, x: T): (r: nat)
    requires x in e
    ensures r < |e| && e[r] == x
    ensures forall j :: r < j < |e| ==> e[j] != x
  {
    if e[|e| - 1] == x then |e| - 1 else IndexOf(e[..|e| - 1], x)
  }

  /** `t` has `n` rows of `n` entries each. */
  predicate Square<T>(t: Table<T>, n: nat)
  {
    |t| == n && forall i :: 0 <= i < |t| ==> |t[i]| == n
  }

  /** Every entry of `t` is one of the labels (closure of the operation). */
  predicate Closed<T(==)>(e: seq<T>, t: Table<T>)
  {
    forall i, j :: 0 <= i < |t| && 0 <= j < |t[i]| ==> t[i][j] in e
  }

  /** What input validation establishes about one table. */
  predicate WellFormed<T(==)>(e: seq<T>, t: Table<T>)
  {
    Square(t, |e|) && Closed(e, t)
  }

  /** `x op y`, looked up the way every checker does it. */
  function Apply<T(==)>(e: seq<T>, t: Table<T>, x: T, y: T): (r: T)
    requires WellFormed(e, t) && x in e && y in e
    ensures r in e
  {
    t[IndexOf(e, x)][IndexOf(e, y)]
  }

  /** (a*b)*c == a*(b*c) for one triple. */
  predicate AssociatesAt<T(==)>(e: seq<T>, t: Table<T>, a: T, b: T, c: T)
    requires WellFormed(e, t) && a in e && b in e && c in e
  {
    Apply(e, t, Apply(e, t, a, b), c) == Apply(e, t, a, Apply(e, t, b, c))
  }

  predicate Associative<T(==)>(e: seq<T>, t: Table<T>)
    requires WellFormed(e, t)
  {
    forall a, b, c {:trigger AssociatesAt(e, t, a, b, c)} ::
      a in e && b in e && c in e ==> AssociatesAt(e, t, a, b, c)
  }

  /** a*b == b*a for one pair. */
  predicate CommutesAt<T(==)>(e: seq<T>, t: Table<T>, a: T, b: T)
    requires WellFormed(e, t) && a in e && b in e
  {
    Apply(e, t, a, b) == Apply(e, t, b, a)
  }

  predicate Commutative<T(==)>(e: seq<T>, t: Table<T>)
    requires WellFormed(e, t)
  {
    forall a, b {:trigger CommutesAt(e, t, a, b)} :: a in e && b in e ==> CommutesAt(e, t, a, b)
  }

  /** a*(b+c) == a*b + a*c for one triple. */
  predicate DistributesAt<T(==)>(e: seq<T>, add: Table<T>, mul: Table<T>, a: T, b: T, c: T)
    requires WellFormed(e, add) && WellFormed(e, mul) && a in e && b in e && c in e
  {
    Apply(e, mul, a, Apply(e, add, b, c)) == Apply(e, add, Apply(e, mul, a, b), Apply(e, mul, a, c))
  }

  /** `mul` distributes over `add` from the left. */
  predicate LeftDistributive<T(==)>(e: seq<T>, add: Table<T>, mul: Table<T>)
    requires WellFormed(e, add) && WellFormed(e, mul)
  {
    forall a, b, c {:trigger DistributesAt(e, add, mul, a, b, c)} ::
      a in e && b in e && c in e ==> DistributesAt(e, add, mul, a, b, c)
  }

  /** `z` is a two-sided identity of the operation. */
  predicate IsIdentity<T(==)>(e: seq<T>, t: Table<T>, z: T)
    requires WellFormed(e, t) && z in e
  {
    forall x {:trigger Apply(e, t, z, x)} {:trigger Apply(e, t, x, z)} ::
      x in e ==> Apply(e, t, z, x) == x && Apply(e, t, x, z) == x
  }

  /** `y` is a two-sided inverse of `x` with respect to `z`. */
  predicate IsInverse<T(==)>(e: seq<T>, t: Table<T>, z: T, x: T, y: T)
    requires WellFormed(e, t) && x in e && y in e
  {
    Apply(e, t, x, y) == z && Apply(e, t, y, x) == z
  }

  /** `x` has a two-sided inverse with respect to `z`. */
  predicate HasInverse<T(==)>(e: seq<T>, t: Table<T>, z: T, x: T)
    requires WellFormed(e, t) && x in e
  {
    exists y {:trigger IsInverse(e, t, z, x, y)} :: y in e && IsInverse(e, t, z, x, y)
  }

  /** Every label has a two-sided inverse with respect to `z`. */
  predicate AllInvertible<T(==)>(e: seq<T>, t: Table<T>, z: T)
    requires WellFormed(e, t)
  {
    forall x {:trigger HasInverse(e, t, z, x)} :: x in e ==> HasInverse(e, t, z, x)
  }

  /** Position of the first label, from position `k` on, that is a two-sided
      identity: the candidate the identity search returns. */
  function FirstIdentity<T(==)>(e: seq<T>, t: Table<T>, k: nat := 0): (r: Option<nat>)
    requires WellFormed(e, t) && k <= |e|
    ensures r.Some? ==> k <= r.value < |e| && IsIdentity(e, t, e[r.value])
    decreases |e| - k
  {
    if k == |e| then None
    else if IsIdentity(e, t, e[k]) then Some(k)
    else FirstIdentity(e, t, k + 1)
  }

  /** No label before the identity the search finds, from `k` on, is an
      identity. */
  lemma {:induction false} FirstIdentityIsFirst<T>(e: seq<T>, t: Table<T>, k: nat)
    requires WellFormed(e, t) && k <= |e|
    ensures FirstIdentity(e, t, k).Some? ==>
              forall j {:trigger IsIdentity(e, t, e[j])} ::
                k <= j < FirstIdentity(e, t, k).value ==> !IsIdentity(e, t, e[j])
    decreases |e| - k
  {
    if k < |e| && !IsIdentity(e, t, e[k]) {
      FirstIdentityIsFirst(e, t, k + 1);
    }
  }

  /** The search finds nothing exactly when no label from `k` on is an
      identity. */
  lemma {:induction false} FirstIdentityNone<T>(e: seq<T>, t: Table<T>, k: nat)
    requires WellFormed(e, t) && k <= |e|
    ensures FirstIdentity(e, t, k).None? <==>
              forall j {:trigger IsIdentity(e, t, e[j])} :: k <= j < |e| ==> !IsIdentity(e, t, e[j])
    decreases |e| - k
  {
    if k < |e| && !IsIdentity(e, t, e[k]) {
      FirstIdentityNone(e, t, k + 1);
    }
  }

  /** The search finds nothing exactly when no label is an identity. */
  lemma NoIdentityIff<T>(e: seq<T>, t: Table<T>)
    requires WellFormed(e, t)
    ensures FirstIdentity(e, t).None? <==> forall x {:trigger IsIdentity(e, t, x)} :: x in e ==> !IsIdentity(e, t, x)
  {
    FirstIdentityNone(e, t, 0);
    if FirstIdentity(e, t).None? {
      forall x | x in e ensures !IsIdentity(e, t, x)
      {
        var j :| 0 <= j < |e| && e[j] == x;
      }
    }
  }

  /** The label the identity search returns, if any. */
  function IdentityElement<T(==)>(e: seq<T>, t: Table<T>): (r: Option<T>)
    requires WellFormed(e, t)
    ensures r.Some? ==> r.value in e && IsIdentity(e, t, r.value)
    ensures r.None? <==> forall x {:trigger IsIdentity(e, t, x)} :: x in e ==> !IsIdentity(e, t, x)
  {
    NoIdentityIff(e, t);
    var k := FirstIdentity(e, t);
    if k.Some? then Some(e[k.value]) else None
  }

  /** An abelian group, with inverses taken with respect to the identity the
      search finds. */
  predicate AbelianGroup<T(==)>(e: seq<T>, t: Table<T>)
    requires WellFormed(e, t)
  {
    && Associative(e, t)
    && Commutative(e, t)
    && IdentityElement(e, t).Some?
    && AllInvertible(e, t, IdentityElement(e, t).value)
  }
}
