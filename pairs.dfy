/** The two checks that run over every ordered pair (a, b) of labels: the
    commutativity check, which records pairs with a*b != b*a and stops at
    `CounterexampleCap` of them, and the zero-divisor enumeration, which
    records every pair of non-zero labels whose product is zero and never
    stops early. Both walk the pairs in row-major order of positions. */
module Pairs {
  import opened Tables

  datatype PairScan<T> =
    | Commutativity(table: Table<T>)
    | ZeroProducts(mul: Table<T>, zero: T)

  /** One recorded pair: a commutativity counterexample with both products,
      or a pair of zero divisors. */
  datatype PairFinding<T> =
    | Asymmetric(a: T, b: T, ab: T, ba: T)
    | ZeroDivisor(a: T, b: T)

  predicate ScanWellFormed<T(==)>(e: seq<T>, scan: PairScan<T>)
  {
    match scan
    case Commutativity(t) => WellFormed(e, t)
    case ZeroProducts(mul, zero) => WellFormed(e, mul) && zero in e
  }

  /** The pair (a, b) is one the scan records. */
  predicate Flagged<T(==)>(e: seq<T>, scan: PairScan<T>, a: T, b: T)
    requires ScanWellFormed(e, scan) && a in e && b in e
  {
    match scan
    case Commutativity(t) => Apply(e, t, a, b) != Apply(e, t, b, a)
    case ZeroProducts(mul, zero) => a != zero && b != zero && Apply(e, mul, a, b) == zero
  }

  /** What the scan records for the pair (a, b) when it is flagged. */
  function Report<T(==)>(e: seq<T>, scan: PairScan<T>, a: T, b: T): PairFinding<T>
    requires ScanWellFormed(e, scan) && a in e && b in e
  {
    match scan
    case Commutativity(t) => Asymmetric(a, b, Apply(e, t, a, b), Apply(e, t, b, a))
    case ZeroProducts(_, _) => ZeroDivisor(a, b)
  }

  /** What the scan records at positions (i, j): one finding or nothing. */
  function PairAt<T(==)>(e: seq<T>, scan: PairScan<T>, i: nat, j: nat): seq<PairFinding<T>>
    requires ScanWellFormed(e, scan) && i < |e| && j < |e|
  {
    if Flagged(e, scan, e[i], e[j]) then [Report(e, scan, e[i], e[j])] else []
  }

  /** The findings at (i, 0), (i, 1), ... */
  function Row<T(==)>(e: seq<T>, scan: PairScan<T>, i: nat): (r: seq<seq<PairFinding<T>>>)
    requires ScanWellFormed(e, scan) && i < |e|
    ensures |r| == |e|
  {
    seq(|e|, j requires 0 <= j < |e| => PairAt(e, scan, i, j))
  }

  /** The findings of row 0, row 1, ... */
  function Rows<T(==)>(e: seq<T>, scan: PairScan<T>): (r: seq<seq<PairFinding<T>>>)
    requires ScanWellFormed(e, scan)
    ensures |r| == |e|
  {
    seq(|e|, i requires 0 <= i < |e| => Flatten(Row(e, scan, i)))
  }

  /** Every flagged pair, in row-major order of positions. */
  function Findings<T(==)>(e: seq<T>, scan: PairScan<T>): seq<PairFinding<T>>
    requires ScanWellFormed(e, scan)
  {
    Flatten(Rows(e, scan))
  }

  /** Whatever is recorded at (i, j) is in the full list. */
  lemma FindingRecorded<T>(e: seq<T>, scan: PairScan<T>, i: nat, j: nat, v: PairFinding<T>)
    requires ScanWellFormed(e, scan) && i < |e| && j < |e|
    requires v in PairAt(e, scan, i, j)
    ensures v in Findings(e, scan)
  {
    var rows, row := Rows(e, scan), Row(e, scan, i);
    assert v in row[j];
    FlattenMember(row, v);
    assert v in rows[i];
    FlattenMember(rows, v);
  }

  /** Each item of the full list was recorded at some pair of positions. */
  lemma FindingSource<T>(e: seq<T>, scan: PairScan<T>, v: PairFinding<T>) returns (i: nat, j: nat)
    requires ScanWellFormed(e, scan) && v in Findings(e, scan)
    ensures i < |e| && j < |e| && v in PairAt(e, scan, i, j)
  {
    var rows := Rows(e, scan);
    FlattenMember(rows, v);
    i :| 0 <= i < |e| && v in rows[i];
    var row := Row(e, scan, i);
    FlattenMember(row, v);
    j :| 0 <= j < |e| && v in row[j];
  }

  /** The list holds exactly the reports of the flagged pairs: every item
      reports a flagged pair, and every flagged pair is reported. */
  lemma FindingsExactly<T>(e: seq<T>, scan: PairScan<T>)
    requires ScanWellFormed(e, scan)
    ensures forall v :: v in Findings(e, scan) ==>
      v.a in e && v.b in e && Flagged(e, scan, v.a, v.b) && v == Report(e, scan, v.a, v.b)
    ensures forall a, b {:trigger Report(e, scan, a, b)} {:trigger Flagged(e, scan, a, b)} ::
              a in e && b in e && Flagged(e, scan, a, b) ==> Report(e, scan, a, b) in Findings(e, scan)
  {
    forall v | v in Findings(e, scan)
      ensures v.a in e && v.b in e && Flagged(e, scan, v.a, v.b) && v == Report(e, scan, v.a, v.b)
    {
      var i, j := FindingSource(e, scan, v);
    }
    forall a, b | a in e && b in e && Flagged(e, scan, a, b)
      ensures Report(e, scan, a, b) in Findings(e, scan)
    {
      var i :| 0 <= i < |e| && e[i] == a;
      var j :| 0 <= j < |e| && e[j] == b;
      FindingRecorded(e, scan, i, j, Report(e, scan, a, b));
    }
  }

  /** The full list is empty exactly when no pair is flagged. */
  lemma FindingsEmptyIff<T>(e: seq<T>, scan: PairScan<T>)
    requires ScanWellFormed(e, scan)
    ensures Findings(e, scan) == [] <==>
              forall a, b {:trigger Flagged(e, scan, a, b)} :: a in e && b in e ==> !Flagged(e, scan, a, b)
  {
    FindingsExactly(e, scan);
    if Findings(e, scan) != [] {
      var v := Findings(e, scan)[0];
      assert v in Findings(e, scan);
    }
  }

  /** The commutativity list never pairs a label with itself, and lists
      (a, b) exactly when it lists (b, a), with the products swapped. */
  lemma AsymmetricPairs<T>(e: seq<T>, t: Table<T>)
    requires WellFormed(e, t)
    ensures forall v :: v in Findings(e, Commutativity(t)) ==> v.a != v.b
    ensures forall a, b, ab, ba :: Asymmetric(a, b, ab, ba) in Findings(e, Commutativity(t)) <==>
      Asymmetric(b, a, ba, ab) in Findings(e, Commutativity(t))
  {
    var scan := Commutativity(t);
    FindingsExactly(e, scan);
    forall a, b, ab, ba | Asymmetric(a, b, ab, ba) in Findings(e, scan)
      ensures Asymmetric(b, a, ba, ab) in Findings(e, scan)
    {
      assert Flagged(e, scan, a, b);
      assert Flagged(e, scan, b, a);
    }
  }

  /** A row contributes nothing when the scan skips its left operand. */
  lemma {:induction false} FlattenNothing<X>(ss: seq<seq<X>>)
    requires forall m :: 0 <= m < |ss| ==> ss[m] == []
    ensures Flatten(ss) == []
  {
    if ss != [] {
      FlattenNothing(ss[..|ss| - 1]);
    }
  }

  /** The commutativity check's inner loop over b, for the left operand at
      position i, appending to `start` and stopping at the cap; when it stops,
      `j` is the position it stopped at. */
  method ScanCommutingRow<T(==)>(e: seq<T>, t: Table<T>, i: nat, start: seq<PairFinding<T>>)
    returns (found: seq<PairFinding<T>>, stopped: bool, ghost j: nat)
    requires WellFormed(e, t) && i < |e| && |start| < CounterexampleCap
    ensures stopped ==> (j < |e| && |found| == CounterexampleCap &&
                         found == (start + Flatten(Row(e, Commutativity(t), i)[..j])) +
                                  Row(e, Commutativity(t), i)[j])
    ensures !stopped ==> found == start + Flatten(Row(e, Commutativity(t), i)) && |found| < CounterexampleCap
  {
    var row := Row(e, Commutativity(t), i);
    assert row[..0] == [];
    found, stopped, j := start, false, 0;
    var a := e[i];
    var c := 0;
    while c < |e|
      invariant 0 <= c <= |e|
      invariant found == start + Flatten(row[..c]) && |found| < CounterexampleCap
    {
      var b := e[c];
      var ab := t[IndexOf(e, a)][IndexOf(e, b)];
      var ba := t[IndexOf(e, b)][IndexOf(e, a)];
      FlattenExtend(start, row, c);
      if ab != ba {
        assert row[c] == [Asymmetric(a, b, ab, ba)];
        found := found + [Asymmetric(a, b, ab, ba)];
        if |found| >= CounterexampleCap {
          stopped, j := true, c;
          return;
        }
      } else {
        assert row[c] == [];
      }
      c := c + 1;
    }
    assert row[..|e|] == row;
  }

  /** Walks every ordered pair in row-major order, recording the pairs that
      do not commute and stopping once `CounterexampleCap` are recorded. */
  method ScanCommuting<T(==)>(e: seq<T>, t: Table<T>) returns (found: seq<PairFinding<T>>)
    requires WellFormed(e, t)
    ensures found == Capped(Findings(e, Commutativity(t)))
  {
    var rows := Rows(e, Commutativity(t));
    assert rows[..0] == [];
    found := [];
    var r := 0;
    while r < |e|
      invariant 0 <= r <= |e|
      invariant found == Flatten(rows[..r]) && |found| < CounterexampleCap
    {
      var stopped;
      ghost var start, j := found, 0;
      found, stopped, j := ScanCommutingRow(e, t, r, found);
      if stopped {
        var row := Row(e, Commutativity(t), r);
        FlattenThroughBehind(start, row, j);
        assert rows[r] == Flatten(row);
        FlattenThrough(rows, r);
        PrefixTransitive(found, start + rows[r], Findings(e, Commutativity(t)));
        CappedPrefix(found, Findings(e, Commutativity(t)));
        return;
      }
      FlattenStep(rows, r);
      r := r + 1;
    }
    assert rows[..|e|] == rows;
  }

  /** The zero-divisor enumeration's inner loop over b, for the left operand
      at position i; the caller skips rows whose operand is the zero. */
  method ScanZeroRow<T(==)>(e: seq<T>, mul: Table<T>, zero: T, i: nat) returns (found: seq<PairFinding<T>>)
    requires WellFormed(e, mul) && zero in e && i < |e| && e[i] != zero
    ensures found == Flatten(Row(e, ZeroProducts(mul, zero), i))
  {
    var row := Row(e, ZeroProducts(mul, zero), i);
    assert row[..0] == [];
    found := [];
    var a := e[i];
    var c := 0;
    while c < |e|
      invariant 0 <= c <= |e|
      invariant found == Flatten(row[..c])
    {
      FlattenStep(row, c);
      var b := e[c];
      if b == zero {
        assert row[c] == [];
        c := c + 1;
        continue;
      }
      var product := mul[IndexOf(e, a)][IndexOf(e, b)];
      if product == zero {
        assert row[c] == [ZeroDivisor(a, b)];
        found := found + [ZeroDivisor(a, b)];
      } else {
        assert row[c] == [];
      }
      c := c + 1;
    }
    assert row[..|e|] == row;
  }

  /** Walks every ordered pair of non-zero labels in row-major order and
      records those whose product is the zero, without a cap. */
  method ScanZeroDivisors<T(==)>(e: seq<T>, mul: Table<T>, zero: T) returns (found: seq<PairFinding<T>>)
    requires WellFormed(e, mul) && zero in e
    ensures found == Findings(e, ZeroProducts(mul, zero))
  {
    var rows := Rows(e, ZeroProducts(mul, zero));
    assert rows[..0] == [];
    found := [];
    var r := 0;
    while r < |e|
      invariant 0 <= r <= |e|
      invariant found == Flatten(rows[..r])
    {
      FlattenStep(rows, r);
      if e[r] == zero {
        FlattenNothing(Row(e, ZeroProducts(mul, zero), r));
        r := r + 1;
        continue;
      }
      var here := ScanZeroRow(e, mul, zero, r);
      found := found + here;
      r := r + 1;
    }
    assert rows[..|e|] == rows;
  }
}
