/** Comparisons and the stable sort the client relies on. */
module Sorting {

  /** Negative, zero or positive, as the left value is less, equal or greater. */
  type Ordering = x: int | -1 <= x <= 1

  function CompareInt(a: int, b: int): Ordering {
    if a < b then -1 else if a > b then 1 else 0
  }

  /** Code point order, which is the byte order of the encoded texts. */
  function CompareText(a: string, b: string): Ordering {
    if a == [] && b == [] then 0
    else if a == [] then -1
    else if b == [] then 1
    else if a[0] < b[0] then -1
    else if a[0] > b[0] then 1
    else CompareText(a[1..], b[1..])
  }

  function Then(first: Ordering, second: Ordering): Ordering {
    if first != 0 then first else second
  }

  lemma {:induction false} CompareTextAntisymmetric(a: string, b: string)
    ensures CompareText(a, b) == -CompareText(b, a)
    ensures CompareText(a, b) == 0 <==> a == b
  {
    if a != [] && b != [] && a[0] == b[0] {
      CompareTextAntisymmetric(a[1..], b[1..]);
      assert a == [a[0]] + a[1..] && b == [b[0]] + b[1..];
    }
  }

  lemma {:induction false} CompareTextTransitive(a: string, b: string, c: string)
    requires CompareText(a, b) <= 0 && CompareText(b, c) <= 0
    ensures CompareText(a, c) <= 0
    ensures CompareText(a, c) == 0 ==> CompareText(a, b) == 0 && CompareText(b, c) == 0
  {
    if a != [] && b != [] && c != [] && a[0] == b[0] == c[0] {
      CompareTextTransitive(a[1..], b[1..], c[1..]);
    }
  }

  // ----- Stable insertion -----

  function Insert<T>(leq: (T, T) -> bool, x: T, s: seq<T>): seq<T> {
    if s == [] || leq(x, s[0]) then [x] + s else [s[0]] + Insert(leq, x, s[1..])
  }

  /** Sorts by `leq`; elements that compare equal keep their order. */
  function StableSort<T>(leq: (T, T) -> bool, s: seq<T>): seq<T> {
    if s == [] then [] else Insert(leq, s[0], StableSort(leq, s[1..]))
  }

  ghost predicate StrictlySorted<T>(less: (T, T) -> bool, s: seq<T>) {
    forall i, j :: 0 <= i < j < |s| ==> less(s[i], s[j])
  }

  ghost predicate TransitiveOn<T(!new)>(less: (T, T) -> bool, s: set<T>) {
    forall a, b, c :: a in s && b in s && c in s && less(a, b) && less(b, c) ==> less(a, c)
  }

  /** `less` decides what `leq` leaves open by the order of `s`. */
  ghost predicate Breaks<T(!new)>(leq: (T, T) -> bool, less: (T, T) -> bool, s: seq<T>) {
    && (forall i, j :: 0 <= i < j < |s| && leq(s[i], s[j]) ==> less(s[i], s[j]))
    && (forall i, j :: 0 <= i < j < |s| && !leq(s[i], s[j]) ==> less(s[j], s[i]))
  }

  lemma {:induction false} InsertPermutes<T>(leq: (T, T) -> bool, x: T, s: seq<T>)
    ensures multiset(Insert(leq, x, s)) == multiset{x} + multiset(s)
  {
    if s != [] && !leq(x, s[0]) {
      InsertPermutes(leq, x, s[1..]);
      assert s == [s[0]] + s[1..];
    }
  }

  lemma {:induction false} SortPermutes<T>(leq: (T, T) -> bool, s: seq<T>)
    ensures multiset(StableSort(leq, s)) == multiset(s)
  {
    if s != [] {
      SortPermutes(leq, s[1..]);
      InsertPermutes(leq, s[0], StableSort(leq, s[1..]));
      assert s == [s[0]] + s[1..];
    }
  }

  lemma SameElements<T>(s: seq<T>, t: seq<T>, x: T)
    requires multiset(s) == multiset(t)
    ensures x in s <==> x in t
  {
    assert x in s <==> x in multiset(s);
    assert x in t <==> x in multiset(t);
  }

  lemma ConsSorted<T>(less: (T, T) -> bool, x: T, s: seq<T>)
    requires StrictlySorted(less, s) && forall y :: y in s ==> less(x, y)
    ensures StrictlySorted(less, [x] + s)
  {
    var r := [x] + s;
    forall i, j | 0 <= i < j < |r| ensures less(r[i], r[j]) {
      assert r[j] == s[j - 1] && s[j - 1] in s;
    }
  }

  lemma {:induction false} InsertSorts<T(!new)>(leq: (T, T) -> bool, less: (T, T) -> bool, x: T, s: seq<T>, all: set<T>)
    requires x in all && (forall y :: y in s ==> y in all) && TransitiveOn(less, all)
    requires StrictlySorted(less, s)
    requires forall y :: y in s ==> (if leq(x, y) then less(x, y) else less(y, x))
    ensures StrictlySorted(less, Insert(leq, x, s))
    decreases s
  {
    if s == [] {
      ConsSorted(less, x, s);
    } else if leq(x, s[0]) {
      forall y | y in s ensures less(x, y) {
        var j :| 0 <= j < |s| && s[j] == y;
        assert j == 0 || less(s[0], s[j]);
        assert s[0] in all && less(x, s[0]);
      }
      ConsSorted(less, x, s);
    } else {
      var rest := Insert(leq, x, s[1..]);
      InsertSorts(leq, less, x, s[1..], all);
      InsertPermutes(leq, x, s[1..]);
      forall y | y in rest ensures less(s[0], y) {
        SameElements(rest, [x] + s[1..], y);
        assert y == x || y in s[1..];
      }
      ConsSorted(less, s[0], rest);
    }
  }

  /** The result is strictly sorted by `leq` with ties decided by the original order. */
  lemma {:induction false} SortSorts<T(!new)>(leq: (T, T) -> bool, less: (T, T) -> bool, s: seq<T>, all: set<T>)
    requires (forall y :: y in s ==> y in all) && TransitiveOn(less, all) && Breaks(leq, less, s)
    ensures StrictlySorted(less, StableSort(leq, s))
    decreases s
  {
    if s != [] {
      var rest := StableSort(leq, s[1..]);
      SortSorts(leq, less, s[1..], all);
      SortPermutes(leq, s[1..]);
      forall y | y in rest ensures y in all && (if leq(s[0], y) then less(s[0], y) else less(y, s[0])) {
        SameElements(rest, s[1..], y);
        var j :| 0 <= j < |s[1..]| && s[1..][j] == y;
        assert s[j + 1] == y;
      }
      InsertSorts(leq, less, s[0], rest, all);
    }
  }

  ghost predicate AsymmetricOn<T>(less: (T, T) -> bool, s: seq<T>) {
    forall i, j :: 0 <= i < |s| && 0 <= j < |s| && less(s[i], s[j]) ==> !less(s[j], s[i])
  }

  lemma SameFirst<T(!new)>(less: (T, T) -> bool, a: seq<T>, b: seq<T>)
    requires a != [] && b != [] && multiset(a) == multiset(b)
    requires StrictlySorted(less, a) && StrictlySorted(less, b) && AsymmetricOn(less, a)
    ensures a[0] == b[0]
  {
    SameElements(a, b, a[0]);
    SameElements(a, b, b[0]);
    var j :| 0 <= j < |b| && b[j] == a[0];
    var i :| 0 <= i < |a| && a[i] == b[0];
  }

  /** A strict order has one sorted arrangement of given elements. */
  lemma {:induction false} SortedIsUnique<T(!new)>(less: (T, T) -> bool, a: seq<T>, b: seq<T>)
    requires multiset(a) == multiset(b) && StrictlySorted(less, a) && StrictlySorted(less, b) && AsymmetricOn(less, a)
    ensures a == b
    decreases a
  {
    hide StrictlySorted, AsymmetricOn;
    SameLength(a, b);
    if a != [] {
      SameFirst(less, a, b);
      TailOf(less, a);
      TailOf(less, b);
      TailAsymmetric(less, a);
      var a', b' := a[1..], b[1..];
      assert multiset(a') == multiset(b');
      SortedIsUnique(less, a', b');
      assert a == [a[0]] + a' && b == [b[0]] + b';
    }
  }

  lemma SameLength<T>(a: seq<T>, b: seq<T>)
    requires multiset(a) == multiset(b)
    ensures |a| == |b|
  {
    assert |multiset(a)| == |a| && |multiset(b)| == |b|;
  }

  lemma TailOf<T>(less: (T, T) -> bool, s: seq<T>)
    requires s != [] && StrictlySorted(less, s)
    ensures StrictlySorted(less, s[1..]) && multiset(s[1..]) == multiset(s) - multiset{s[0]}
  {
    assert s == [s[0]] + s[1..];
  }

  lemma TailAsymmetric<T>(less: (T, T) -> bool, s: seq<T>)
    requires s != [] && AsymmetricOn(less, s)
    ensures AsymmetricOn(less, s[1..])
  {
  }
}
