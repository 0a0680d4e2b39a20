/** Input validation: the analyser rejects fewer than two labels, a table of
    the wrong shape, and any table entry that is not one of the labels. It
    raises on the first problem it meets, in this order: the element count,
    the addition table's shape, the multiplication table's shape, then the
    entries of the addition table and of the multiplication table, each in
    row-major order. */
module Validation {
  import opened Tables

  datatype ValidationError<T> =
    | TooFewElements
    | AdditionTableShape
    | MultiplicationTableShape
    | EntryNotInElements(entry: T)

  /** The text the analyser reports for an error, for string labels. */
  function Message(err: ValidationError<string>): (r: string)
    ensures err.EntryNotInElements? ==> |r| == 41 + |err.entry| && r[13..13 + |err.entry|] == err.entry
    ensures !err.EntryNotInElements? ==> |r| < 41
  {
    match err
    case TooFewElements => "Ring harus memiliki setidaknya 2 elemen"
    case AdditionTableShape => "Dimensi tabel penjumlahan tidak sesuai"
    case MultiplicationTableShape => "Dimensi tabel perkalian tidak sesuai"
    case EntryNotInElements(x) => "Entri tabel '" + x + "' tidak ada dalam set elemen"
  }

  /** Different errors are reported with different texts. */
  lemma MessageInjective(a: ValidationError<string>, b: ValidationError<string>)
    requires Message(a) == Message(b)
    ensures a == b
  {
    if a.EntryNotInElements? && b.EntryNotInElements? {
      assert a.entry == Message(a)[13..13 + |a.entry|];
    }
  }

  /** Position of the first entry of `s`, from position `k` on, that is not
      a label. */
  function FirstOutside<T(==)>(e: seq<T>, s: seq<T>, k: nat := 0): (r: Option<nat>)
    requires k <= |s|
    ensures r.Some? ==> k <= r.value < |s| && s[r.value] !in e
    decreases |s| - k
  {
    if k == |s| then None
    else if s[k] !in e then Some(k)
    else FirstOutside(e, s, k + 1)
  }

  /** Everything before the entry found is a label, and nothing is found
      exactly when every entry from `k` on is a label. */
  lemma {:induction false} FirstOutsideIsFirst<T>(e: seq<T>, s: seq<T>, k: nat)
    requires k <= |s|
    ensures FirstOutside(e, s, k).Some? ==> forall m :: k <= m < FirstOutside(e, s, k).value ==> s[m] in e
    ensures FirstOutside(e, s, k).None? <==> forall m :: k <= m < |s| ==> s[m] in e
    decreases |s| - k
  {
    if k < |s| && s[k] in e {
      FirstOutsideIsFirst(e, s, k + 1);
    }
  }

  /** An entry outside the labels with only labels before it is the first. */
  lemma {:induction false} FirstOutsideAt<T>(e: seq<T>, s: seq<T>, k: nat, p: nat)
    requires k <= p < |s| && s[p] !in e && forall m :: k <= m < p ==> s[m] in e
    ensures FirstOutside(e, s, k) == Some(p)
    decreases p - k
  {
    if k < p {
      FirstOutsideAt(e, s, k + 1, p);
    }
  }

  /** Over the front part of a concatenation the search sees the front. */
  lemma {:induction false} SearchFront<T>(e: seq<T>, w: seq<T>, s: seq<T>, u: seq<T>, k: nat)
    requires w == s + u && k <= |s|
    ensures FirstOutside(e, s, k).Some? ==> FirstOutside(e, w, k) == FirstOutside(e, s, k)
    ensures FirstOutside(e, s, k).None? ==> FirstOutside(e, w, k) == FirstOutside(e, w, |s|)
    decreases |s| - k
  {
    if k < |s| {
      assert w[k] == s[k];
      SearchFront(e, w, s, u, k + 1);
    }
  }

  /** Over the back part of a concatenation the search sees the back,
      shifted past the front. */
  lemma {:induction false} SearchBack<T>(e: seq<T>, w: seq<T>, s: seq<T>, u: seq<T>, k: nat)
    requires w == s + u && k <= |u|
    ensures FirstOutside(e, u, k).Some? ==> FirstOutside(e, w, |s| + k) == Some(|s| + FirstOutside(e, u, k).value)
    ensures FirstOutside(e, u, k).None? ==> FirstOutside(e, w, |s| + k).None?
    decreases |u| - k
  {
    if k < |u| {
      assert w[|s| + k] == u[k];
      SearchBack(e, w, s, u, k + 1);
    }
  }

  /** A table is closed exactly when its row-major entries are all labels. */
  lemma ClosedFlat<T>(e: seq<T>, t: Table<T>)
    ensures Closed(e, t) <==> FirstOutside(e, Flatten(t)).None?
  {
    var flat := Flatten(t);
    FirstOutsideIsFirst(e, flat, 0);
    if Closed(e, t) {
      forall m | 0 <= m < |flat| ensures flat[m] in e
      {
        FlattenMember(t, flat[m]);
      }
    } else {
      var i, j :| 0 <= i < |t| && 0 <= j < |t[i]| && t[i][j] !in e;
      FlattenMember(t, t[i][j]);
    }
  }

  /** Every entry of both tables, addition first, each row-major: the order
      in which validation checks them. */
  function Entries<T>(add: Table<T>, mul: Table<T>): seq<T>
  {
    Flatten(add) + Flatten(mul)
  }

  /** The first problem validation reports, if any. */
  function Validate<T(==)>(e: seq<T>, add: Table<T>, mul: Table<T>): (r: Option<ValidationError<T>>)
    ensures r.None? <==> 2 <= |e| && WellFormed(e, add) && WellFormed(e, mul)
    ensures r == Some(TooFewElements) <==> |e| < 2
    ensures r == Some(AdditionTableShape) <==> 2 <= |e| && !Square(add, |e|)
    ensures r == Some(MultiplicationTableShape) <==> 2 <= |e| && Square(add, |e|) && !Square(mul, |e|)
    ensures r.Some? && r.value.EntryNotInElements? ==>
              && 2 <= |e| && Square(add, |e|) && Square(mul, |e|)
              && FirstOutside(e, Entries(add, mul)).Some?
              && r.value.entry == Entries(add, mul)[FirstOutside(e, Entries(add, mul)).value]
  {
    ClosedFlat(e, add);
    ClosedFlat(e, mul);
    SearchFront(e, Entries(add, mul), Flatten(add), Flatten(mul), 0);
    SearchBack(e, Entries(add, mul), Flatten(add), Flatten(mul), 0);
    if |e| < 2 then Some(TooFewElements)
    else if !Square(add, |e|) then Some(AdditionTableShape)
    else if !Square(mul, |e|) then Some(MultiplicationTableShape)
    else
      var entries := Entries(add, mul);
      match FirstOutside(e, entries)
      case Some(p) => Some(EntryNotInElements(entries[p]))
      case None => None
  }

  /** The shape check of one table: `n` rows, each of length `n`. */
  method CheckShape<T>(t: Table<T>, n: nat) returns (ok: bool)
    ensures ok <==> Square(t, n)
  {
    if |t| != n {
      return false;
    }
    var i := 0;
    while i < |t|
      invariant 0 <= i <= |t|
      invariant forall m :: 0 <= m < i ==> |t[m]| == n
    {
      if |t[i]| != n {
        return false;
      }
      i := i + 1;
    }
    return true;
  }

  /** The entry check of one table: walks the rows and their entries and
      stops at the first entry that is not a label. */
  method FindForeign<T(==)>(e: seq<T>, t: Table<T>) returns (r: Option<T>)
    ensures r.None? <==> FirstOutside(e, Flatten(t)).None?
    ensures r.Some? ==> r.value == Flatten(t)[FirstOutside(e, Flatten(t)).value]
  {
    ghost var flat := Flatten(t);
    assert t[..0] == [];
    var i := 0;
    while i < |t|
      invariant 0 <= i <= |t|
      invariant IsPrefix(Flatten(t[..i]), flat)
      invariant forall m :: 0 <= m < |Flatten(t[..i])| ==> flat[m] in e
    {
      ghost var base := Flatten(t[..i]);
      FlattenThrough(t, i);
      FlattenStep(t, i);
      var row := t[i];
      var j := 0;
      while j < |row|
        invariant 0 <= j <= |row|
        invariant forall m :: 0 <= m < |base| + j ==> flat[m] in e
      {
        assert flat[|base| + j] == (base + row)[|base| + j] == row[j];
        if row[j] !in e {
          FirstOutsideAt(e, flat, 0, |base| + j);
          return Some(row[j]);
        }
        j := j + 1;
      }
      i := i + 1;
    }
    assert t[..|t|] == t;
    return None;
  }

  /** Validation as the analyser runs it: the first problem found, or none. */
  method ValidateInput<T(==)>(e: seq<T>, add: Table<T>, mul: Table<T>) returns (err: Option<ValidationError<T>>)
    ensures err == Validate(e, add, mul)
  {
    var n := |e|;
    if n < 2 {
      return Some(TooFewElements);
    }
    var addShaped := CheckShape(add, n);
    if !addShaped {
      return Some(AdditionTableShape);
    }
    var mulShaped := CheckShape(mul, n);
    if !mulShaped {
      return Some(MultiplicationTableShape);
    }
    var foreign := FindForeign(e, add);
    SearchFront(e, Entries(add, mul), Flatten(add), Flatten(mul), 0);
    if foreign.Some? {
      return Some(EntryNotInElements(foreign.value));
    }
    foreign := FindForeign(e, mul);
    SearchBack(e, Entries(add, mul), Flatten(add), Flatten(mul), 0);
    if foreign.Some? {
      assert Entries(add, mul)[|Flatten(add)| + FirstOutside(e, Flatten(mul)).value] == foreign.value;
      return Some(EntryNotInElements(foreign.value));
    }
    return None;
  }
}
