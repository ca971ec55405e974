/** The order in which search results are listed: grouped by room, with the order of the
    groups taken from a hash map. */
module SearchOrder {
  import opened Text
  import opened Sorting

  datatype Event = Event(account: nat, room: string, id: string, ts: int)

  datatype Sort = Relevance | NewestFirst | OldestFirst

  datatype Grouping = Ungrouped | ByRoom

  type Key = (nat, string)

  function KeyOf(e: Event): Key { (e.account, e.room) }

  function At(results: seq<Event>, i: nat): Event {
    if i < |results| then results[i] else Event(0, "", "", 0)
  }

  function CompareResults(results: seq<Event>, sort: Sort, l: nat, r: nat): Ordering {
    var a, b := At(results, l), At(results, r);
    match sort
    case Relevance => CompareInt(l, r)
    case NewestFirst => Then(CompareInt(b.ts, a.ts), Then(CompareText(a.room, b.room), CompareText(a.id, b.id)))
    case OldestFirst => Then(CompareInt(a.ts, b.ts), Then(CompareText(a.room, b.room), CompareText(a.id, b.id)))
  }

  // ----- Groups -----

  /** The earliest and the latest time of each room. */
  function BoundsOf(results: seq<Event>): map<Key, (int, int)> {
    if results == [] then map[]
    else
      var n := |results| - 1;
      var m, e := BoundsOf(results[..n]), results[n];
      Widen(m, e)
  }

  function Widen(m: map<Key, (int, int)>, e: Event): map<Key, (int, int)> {
    var (lo, hi) := if KeyOf(e) in m then m[KeyOf(e)] else (e.ts, e.ts);
    m[KeyOf(e) := (if e.ts < lo then e.ts else lo, if e.ts > hi then e.ts else hi)]
  }

  /** Rooms numbered in the order of their first result. */
  function FirstSeen(results: seq<Event>): map<Key, nat> {
    if results == [] then map[]
    else
      var n := |results| - 1;
      Number(FirstSeen(results[..n]), results[n])
  }

  function Number(m: map<Key, nat>, e: Event): map<Key, nat> {
    if KeyOf(e) in m then m else m[KeyOf(e) := |m|]
  }

  function Bound(m: map<Key, (int, int)>, k: Key): (int, int) {
    if k in m then m[k] else (0, 0)
  }

  function CompareRooms(m: map<Key, (int, int)>, sort: Sort, a: Key, b: Key): Ordering {
    var byTime := if sort.OldestFirst? then CompareInt(Bound(m, a).0, Bound(m, b).0)
                  else CompareInt(Bound(m, b).1, Bound(m, a).1);
    Then(byTime, Then(CompareText(a.1, b.1), CompareInt(a.0, b.0)))
  }

  function RoomSequence(results: seq<Event>, sort: Sort, order: seq<Key>): seq<Key> {
    var m := BoundsOf(results);
    StableSort((a: Key, b: Key) => CompareRooms(m, sort, a, b) <= 0, order)
  }

  function Positions(keys: seq<Key>): map<Key, nat> {
    if keys == [] then map[] else Positions(keys[..|keys| - 1])[keys[|keys| - 1] := |keys| - 1]
  }

  /** The rank of every room; `order` is the order in which the hash map lists its keys. */
  function GroupOrder(results: seq<Event>, sort: Sort, order: seq<Key>): map<Key, nat> {
    if sort.Relevance? then FirstSeen(results) else Positions(RoomSequence(results, sort, order))
  }

  ghost predicate Enumerates(order: seq<Key>, m: map<Key, (int, int)>) {
    && (forall k :: k in order <==> k in m)
    && (forall i, j :: 0 <= i < j < |order| ==> order[i] != order[j])
  }

  // ----- The listing -----

  function Rank(ranks: map<Key, nat>, e: Event): nat {
    if KeyOf(e) in ranks then ranks[KeyOf(e)] else 0
  }

  function CompareIndices(results: seq<Event>, sort: Sort, ranks: map<Key, nat>, l: nat, r: nat): Ordering {
    Then(CompareInt(Rank(ranks, At(results, l)), Rank(ranks, At(results, r))), CompareResults(results, sort, l, r))
  }

  function Indices(n: nat): seq<nat> {
    seq(n, i => i)
  }

  function Listing(results: seq<Event>, sort: Sort, grouping: Grouping, order: seq<Key>): seq<nat> {
    if grouping.Ungrouped? then Indices(|results|)
    else ListingBy(results, sort, GroupOrder(results, sort, order))
  }

  function ListingBy(results: seq<Event>, sort: Sort, ranks: map<Key, nat>): seq<nat> {
    StableSort((l: nat, r: nat) => CompareIndices(results, sort, ranks, l, r) <= 0, Indices(|results|))
  }

  // ----- Comparisons are orders -----

  lemma CompareResultsIsOrder(results: seq<Event>, sort: Sort, a: nat, b: nat, c: nat)
    ensures CompareResults(results, sort, a, b) == -CompareResults(results, sort, b, a)
    ensures CompareResults(results, sort, a, b) <= 0 && CompareResults(results, sort, b, c) <= 0 ==>
              && CompareResults(results, sort, a, c) <= 0
              && (CompareResults(results, sort, a, c) == 0 ==>
                    CompareResults(results, sort, a, b) == 0 && CompareResults(results, sort, b, c) == 0)
  {
    hide CompareText, At;
    var x, y, z := At(results, a), At(results, b), At(results, c);
    CompareTextAntisymmetric(x.room, y.room);
    CompareTextAntisymmetric(x.id, y.id);
    if CompareText(x.room, y.room) <= 0 && CompareText(y.room, z.room) <= 0 {
      CompareTextTransitive(x.room, y.room, z.room);
    }
    if CompareText(x.id, y.id) <= 0 && CompareText(y.id, z.id) <= 0 {
      CompareTextTransitive(x.id, y.id, z.id);
    }
  }

  lemma CompareRoomsIsOrder(m: map<Key, (int, int)>, sort: Sort, a: Key, b: Key, c: Key)
    ensures CompareRooms(m, sort, a, b) == -CompareRooms(m, sort, b, a)
    ensures CompareRooms(m, sort, a, b) == 0 <==> a == b
    ensures CompareRooms(m, sort, a, b) < 0 && CompareRooms(m, sort, b, c) < 0 ==> CompareRooms(m, sort, a, c) < 0
  {
    hide CompareText, Bound;
    CompareTextAntisymmetric(a.1, b.1);
    CompareTextAntisymmetric(b.1, c.1);
    if CompareText(a.1, b.1) <= 0 && CompareText(b.1, c.1) <= 0 {
      CompareTextTransitive(a.1, b.1, c.1);
    }
  }

  predicate Precedes(results: seq<Event>, sort: Sort, ranks: map<Key, nat>, l: nat, r: nat) {
    var c := CompareIndices(results, sort, ranks, l, r);
    c < 0 || (c == 0 && l < r)
  }

  lemma PrecedesIsTransitive(results: seq<Event>, sort: Sort, ranks: map<Key, nat>, a: nat, b: nat, c: nat)
    requires Precedes(results, sort, ranks, a, b) && Precedes(results, sort, ranks, b, c)
    ensures Precedes(results, sort, ranks, a, c)
  {
    hide CompareResults, Rank, At;
    CompareResultsIsOrder(results, sort, a, b, c);
  }

  // ----- What the group order is -----

  ghost predicate Injective(ranks: map<Key, nat>) {
    forall a, b :: a in ranks && b in ranks && ranks[a] == ranks[b] ==> a == b
  }

  lemma {:induction false} BoundsSpec(results: seq<Event>, k: Key)
    ensures k in BoundsOf(results) <==> exists i :: 0 <= i < |results| && KeyOf(results[i]) == k
    ensures k in BoundsOf(results) ==>
              && (forall i :: 0 <= i < |results| && KeyOf(results[i]) == k ==>
                    BoundsOf(results)[k].0 <= results[i].ts <= BoundsOf(results)[k].1)
              && (exists i :: 0 <= i < |results| && KeyOf(results[i]) == k && results[i].ts == BoundsOf(results)[k].0)
              && (exists i :: 0 <= i < |results| && KeyOf(results[i]) == k && results[i].ts == BoundsOf(results)[k].1)
  {
    if results != [] {
      var n := |results| - 1;
      var s, m, e := results[..n], BoundsOf(results[..n]), results[n];
      BoundsSpec(s, k);
      assert forall i :: 0 <= i < n ==> results[i] == s[i];
      if k in m {
        var i :| 0 <= i < n && KeyOf(s[i]) == k && s[i].ts == m[k].0;
        var j :| 0 <= j < n && KeyOf(s[j]) == k && s[j].ts == m[k].1;
        assert KeyOf(results[i]) == k && KeyOf(results[j]) == k;
      }
      assert KeyOf(results[n]) == k || KeyOf(e) != k;
    }
  }

  lemma {:induction false} FirstSeenDomain(results: seq<Event>, k: Key)
    ensures k in FirstSeen(results) <==> exists i :: 0 <= i < |results| && KeyOf(results[i]) == k
  {
    if results != [] {
      var n := |results| - 1;
      var s := results[..n];
      FirstSeenDomain(s, k);
      if k in FirstSeen(s) {
        var i :| 0 <= i < n && KeyOf(s[i]) == k;
        assert KeyOf(results[i]) == k;
      }
      assert KeyOf(results[n]) in FirstSeen(results);
      assert forall i :: 0 <= i < n ==> results[i] == s[i];
    }
  }

  /** Rooms are numbered without gaps or repeats, the first result's room being number 0. */
  lemma {:induction false} FirstSeenNumbers(results: seq<Event>)
    ensures forall k :: k in FirstSeen(results) ==> FirstSeen(results)[k] < |FirstSeen(results)|
    ensures Injective(FirstSeen(results))
    ensures results != [] ==> KeyOf(results[0]) in FirstSeen(results) && FirstSeen(results)[KeyOf(results[0])] == 0
  {
    if results != [] {
      var n := |results| - 1;
      FirstSeenNumbers(results[..n]);
      NumberKeeps(FirstSeen(results[..n]), results[n]);
      assert n == 0 ==> results[..n] == [];
      assert n > 0 ==> results[..n][0] == results[0];
    }
  }

  lemma NumberKeeps(m: map<Key, nat>, e: Event)
    requires Injective(m) && forall k :: k in m ==> m[k] < |m|
    ensures Injective(Number(m, e)) && forall k :: k in Number(m, e) ==> Number(m, e)[k] < |Number(m, e)|
  {
  }

  lemma {:induction false} PositionsSpec(keys: seq<Key>)
    requires forall i, j :: 0 <= i < j < |keys| ==> keys[i] != keys[j]
    ensures forall k :: k in Positions(keys) <==> k in keys
    ensures forall i :: 0 <= i < |keys| ==> keys[i] in Positions(keys) && Positions(keys)[keys[i]] == i
  {
    if keys != [] {
      var n := |keys| - 1;
      PositionsSpec(keys[..n]);
      assert keys == keys[..n] + [keys[n]];
      assert forall i :: 0 <= i < n ==> keys[i] == keys[..n][i];
    }
  }

  // ----- Enumerations -----

  lemma {:induction false} DistinctIsSet<T>(s: seq<T>)
    requires forall i, j :: 0 <= i < j < |s| ==> s[i] != s[j]
    ensures multiset(s) == multiset(set x | x in s)
  {
    if s != [] {
      var n := |s| - 1;
      var t := s[..n];
      DistinctIsSet(t);
      assert s == t + [s[n]];
      assert (set x | x in s) == (set x | x in t) + {s[n]};
      assert s[n] !in t;
    }
  }

  lemma SameEnumeration(m: map<Key, (int, int)>, a: seq<Key>, b: seq<Key>)
    requires Enumerates(a, m) && Enumerates(b, m)
    ensures multiset(a) == multiset(b)
  {
    DistinctIsSet(a);
    DistinctIsSet(b);
    assert (set x | x in a) == (set x | x in b);
  }

  /** Sorted rooms: each key once, in the strict order of the comparison. */
  lemma RoomSequenceSpec(results: seq<Event>, sort: Sort, order: seq<Key>)
    requires Enumerates(order, BoundsOf(results))
    ensures var keys, m := RoomSequence(results, sort, order), BoundsOf(results);
            && multiset(keys) == multiset(order)
            && StrictlySorted((a: Key, b: Key) => CompareRooms(m, sort, a, b) < 0, keys)
            && (forall i, j :: 0 <= i < j < |keys| ==> keys[i] != keys[j])
            && (forall k :: k in keys <==> k in m)
  {
    hide BoundsOf, CompareRooms;
    var m := BoundsOf(results);
    var leq, less := (a: Key, b: Key) => CompareRooms(m, sort, a, b) <= 0, (a: Key, b: Key) => CompareRooms(m, sort, a, b) < 0;
    var all := set k | k in order;
    forall a, b, c | a in all && b in all && c in all && less(a, b) && less(b, c) ensures less(a, c) {
      CompareRoomsIsOrder(m, sort, a, b, c);
    }
    forall i, j | 0 <= i < j < |order|
      ensures (leq(order[i], order[j]) ==> less(order[i], order[j])) && (!leq(order[i], order[j]) ==> less(order[j], order[i]))
    {
      CompareRoomsIsOrder(m, sort, order[i], order[j], order[i]);
    }
    SortSorts(leq, less, order, all);
    SortPermutes(leq, order);
    var keys := RoomSequence(results, sort, order);
    forall k ensures k in keys <==> k in m {
      SameElements(keys, order, k);
    }
    forall i, j | 0 <= i < j < |keys| ensures keys[i] != keys[j] {
      assert less(keys[i], keys[j]);
      CompareRoomsIsOrder(m, sort, keys[i], keys[j], keys[i]);
    }
  }

  /** The room a hash map happens to list first makes no difference. */
  lemma RoomSequenceIsUnique(results: seq<Event>, sort: Sort, order: seq<Key>, order': seq<Key>)
    requires Enumerates(order, BoundsOf(results)) && Enumerates(order', BoundsOf(results))
    ensures RoomSequence(results, sort, order) == RoomSequence(results, sort, order')
  {
    hide BoundsOf, CompareRooms, RoomSequence, Enumerates;
    var m := BoundsOf(results);
    var less := (a: Key, b: Key) => CompareRooms(m, sort, a, b) < 0;
    RoomSequenceSpec(results, sort, order);
    RoomSequenceSpec(results, sort, order');
    SameEnumeration(m, order, order');
    var keys := RoomSequence(results, sort, order);
    forall i, j | 0 <= i < |keys| && 0 <= j < |keys| && less(keys[i], keys[j]) ensures !less(keys[j], keys[i]) {
      CompareRoomsIsOrder(m, sort, keys[i], keys[j], keys[i]);
    }
    SortedIsUnique(less, keys, RoomSequence(results, sort, order'));
  }

  /** The listing is the same for every iteration order of the hash map. */
  lemma HashOrderDoesNotMatter(results: seq<Event>, sort: Sort, grouping: Grouping, order: seq<Key>, order': seq<Key>)
    requires Enumerates(order, BoundsOf(results)) && Enumerates(order', BoundsOf(results))
    ensures Listing(results, sort, grouping, order) == Listing(results, sort, grouping, order')
  {
    hide BoundsOf, RoomSequence, Enumerates;
    RoomSequenceIsUnique(results, sort, order, order');
  }

  /** Every room of a result has a rank of its own. */
  lemma GroupOrderSpec(results: seq<Event>, sort: Sort, order: seq<Key>)
    requires Enumerates(order, BoundsOf(results))
    ensures var ranks := GroupOrder(results, sort, order);
            Injective(ranks) && forall i :: 0 <= i < |results| ==> KeyOf(results[i]) in ranks
  {
    hide BoundsOf, RoomSequence, FirstSeen, Positions, KeyOf;
    if sort.Relevance? {
      FirstSeenNumbers(results);
      forall i | 0 <= i < |results| ensures KeyOf(results[i]) in FirstSeen(results) {
        FirstSeenDomain(results, KeyOf(results[i]));
      }
    } else {
      var keys := RoomSequence(results, sort, order);
      RoomSequenceSpec(results, sort, order);
      PositionsSpec(keys);
      forall i | 0 <= i < |results| ensures KeyOf(results[i]) in Positions(keys) {
        BoundsSpec(results, KeyOf(results[i]));
      }
      var ranks := Positions(keys);
      forall a, b | a in ranks && b in ranks && ranks[a] == ranks[b] ensures a == b {
        var i :| 0 <= i < |keys| && keys[i] == a;
        var j :| 0 <= j < |keys| && keys[j] == b;
      }
    }
  }

  // ----- Main results -----

  lemma ListingBySorts(results: seq<Event>, sort: Sort, ranks: map<Key, nat>)
    ensures StrictlySorted((l: nat, r: nat) => Precedes(results, sort, ranks, l, r), ListingBy(results, sort, ranks))
  {
    hide CompareIndices;
    var all := Indices(|results|);
    var leq := (l: nat, r: nat) => CompareIndices(results, sort, ranks, l, r) <= 0;
    var less := (l: nat, r: nat) => Precedes(results, sort, ranks, l, r);
    var domain := set i | i in all;
    forall a, b, c | a in domain && b in domain && c in domain && less(a, b) && less(b, c) ensures less(a, c) {
      PrecedesIsTransitive(results, sort, ranks, a, b, c);
    }
    assert Breaks(leq, less, all) by {
      forall i, j | 0 <= i < j < |all|
        ensures (leq(all[i], all[j]) ==> less(all[i], all[j])) && (!leq(all[i], all[j]) ==> less(all[j], all[i]))
      {
        CompareIndicesAntisymmetric(results, sort, ranks, i, j);
      }
    }
    SortSorts(leq, less, all, domain);
  }

  lemma ListingByPermutes(results: seq<Event>, sort: Sort, ranks: map<Key, nat>)
    ensures var out := ListingBy(results, sort, ranks);
            && multiset(out) == multiset(Indices(|results|))
            && |out| == |results|
            && forall i :: 0 <= i < |out| ==> out[i] < |results|
  {
    hide CompareIndices;
    var out, all := ListingBy(results, sort, ranks), Indices(|results|);
    SortPermutes((l: nat, r: nat) => CompareIndices(results, sort, ranks, l, r) <= 0, all);
    SameLength(out, all);
    forall i | 0 <= i < |out| ensures out[i] < |results| {
      SameElements(out, all, out[i]);
    }
  }

  /** The grouped listing: a permutation of the results, sorted by group rank, then by the
      chosen order, then by the order the server sent. */
  lemma ListingIsSorted(results: seq<Event>, sort: Sort, order: seq<Key>)
    ensures var out, ranks := Listing(results, sort, ByRoom, order), GroupOrder(results, sort, order);
            && multiset(out) == multiset(Indices(|results|))
            && |out| == |results|
            && (forall i :: 0 <= i < |out| ==> out[i] < |results|)
            && (forall i, j :: 0 <= i < j < |out| ==> Precedes(results, sort, ranks, out[i], out[j]))
  {
    hide GroupOrder, ListingBy, Precedes, Indices;
    var out, ranks := Listing(results, sort, ByRoom, order), GroupOrder(results, sort, order);
    ListingBySorts(results, sort, ranks);
    ListingByPermutes(results, sort, ranks);
    var less := (l: nat, r: nat) => Precedes(results, sort, ranks, l, r);
    assert StrictlySorted(less, out);
    forall i, j | 0 <= i < j < |out| ensures Precedes(results, sort, ranks, out[i], out[j]) {
      assert less(out[i], out[j]);
    }
  }

  lemma CompareIndicesAntisymmetric(results: seq<Event>, sort: Sort, ranks: map<Key, nat>, l: nat, r: nat)
    ensures CompareIndices(results, sort, ranks, l, r) == -CompareIndices(results, sort, ranks, r, l)
  {
    hide CompareResults, Rank, At;
    CompareResultsIsOrder(results, sort, l, r, l);
  }

  /** Each room's results are contiguous, and within a room follow the chosen order. */
  lemma GroupsAreContiguous(results: seq<Event>, sort: Sort, order: seq<Key>, i: nat, j: nat, k: nat)
    requires Enumerates(order, BoundsOf(results))
    requires i < j < k < |results|
    ensures var out := Listing(results, sort, ByRoom, order);
            && |out| == |results| && out[i] < |results| && out[j] < |results| && out[k] < |results|
            && (KeyOf(results[out[i]]) == KeyOf(results[out[k]]) ==> KeyOf(results[out[j]]) == KeyOf(results[out[i]]))
            && (KeyOf(results[out[i]]) == KeyOf(results[out[j]]) ==> InOrder(results, sort, out[i], out[j]))
  {
    hide Listing, GroupOrder, CompareResults, BoundsOf, Enumerates, InOrder;
    var out, ranks := Listing(results, sort, ByRoom, order), GroupOrder(results, sort, order);
    ListingIsSorted(results, sort, order);
    GroupOrderSpec(results, sort, order);
    assert Precedes(results, sort, ranks, out[i], out[j]) && Precedes(results, sort, ranks, out[j], out[k]);
    var a, b, c := results[out[i]], results[out[j]], results[out[k]];
    assert At(results, out[i]) == a && At(results, out[j]) == b && At(results, out[k]) == c;
    assert Rank(ranks, a) <= Rank(ranks, b) <= Rank(ranks, c);
    if KeyOf(a) == KeyOf(b) {
      assert out[i] != out[j] by { NotTwice(results, sort, ranks, out[i], out[j]); }
      WithinRoom(results, sort, out[i], out[j]);
    }
  }

  lemma NotTwice(results: seq<Event>, sort: Sort, ranks: map<Key, nat>, l: nat, r: nat)
    requires Precedes(results, sort, ranks, l, r)
    ensures l != r
  {
    hide CompareResults, Rank, At;
    CompareResultsIsOrder(results, sort, l, r, l);
  }

  /** The order within a room, spelled out: by rank, or by time and then by event id; the
      server's order decides what is left. */
  predicate InOrder(results: seq<Event>, sort: Sort, l: nat, r: nat)
    requires l < |results| && r < |results|
  {
    var a, b := results[l], results[r];
    match sort
    case Relevance => l < r
    case NewestFirst => a.ts > b.ts || (a.ts == b.ts && (CompareText(a.id, b.id) < 0 || (a.id == b.id && l < r)))
    case OldestFirst => a.ts < b.ts || (a.ts == b.ts && (CompareText(a.id, b.id) < 0 || (a.id == b.id && l < r)))
  }

  lemma WithinRoom(results: seq<Event>, sort: Sort, l: nat, r: nat)
    requires l < |results| && r < |results| && l != r && KeyOf(results[l]) == KeyOf(results[r])
    requires var c := CompareResults(results, sort, l, r); c < 0 || (c == 0 && l < r)
    ensures InOrder(results, sort, l, r)
  {
    hide CompareText;
    CompareTextAntisymmetric(results[l].room, results[r].room);
    CompareTextAntisymmetric(results[l].id, results[r].id);
  }

  /** The order between rooms, spelled out: by how far they reach, then by name and account. */
  predicate RoomBefore(m: map<Key, (int, int)>, sort: Sort, a: Key, b: Key)
    requires a in m && b in m
  {
    var tie := CompareText(a.1, b.1) < 0 || (a.1 == b.1 && a.0 < b.0);
    if sort.OldestFirst? then m[a].0 < m[b].0 || (m[a].0 == m[b].0 && tie)
    else m[a].1 > m[b].1 || (m[a].1 == m[b].1 && tie)
  }

  lemma LessIsRoomBefore(m: map<Key, (int, int)>, sort: Sort, a: Key, b: Key)
    requires a in m && b in m && CompareRooms(m, sort, a, b) < 0
    ensures RoomBefore(m, sort, a, b)
  {
    hide CompareText;
    CompareTextAntisymmetric(a.1, b.1);
  }

  /** Of two rooms with different ranks, the lower one is before the other. */
  lemma RanksFollowTime(results: seq<Event>, sort: Sort, order: seq<Key>, a: Key, b: Key)
    requires Enumerates(order, BoundsOf(results)) && !sort.Relevance?
    requires a in BoundsOf(results) && b in BoundsOf(results) && a != b
    ensures var ranks := GroupOrder(results, sort, order);
            a in ranks && b in ranks && (ranks[a] <= ranks[b] ==> RoomBefore(BoundsOf(results), sort, a, b))
  {
    hide BoundsOf, RoomSequence, Positions, CompareRooms, RoomBefore, Enumerates, StrictlySorted;
    var keys, m := RoomSequence(results, sort, order), BoundsOf(results);
    RoomSequenceSpec(results, sort, order);
    PositionsSpec(keys);
    var k :| 0 <= k < |keys| && keys[k] == a;
    var l :| 0 <= l < |keys| && keys[l] == b;
    if k < l {
      SortedRoomsAreBefore(m, sort, keys, k, l);
    }
  }

  lemma SortedRoomsAreBefore(m: map<Key, (int, int)>, sort: Sort, keys: seq<Key>, k: nat, l: nat)
    requires k < l < |keys| && keys[k] in m && keys[l] in m
    requires StrictlySorted((a: Key, b: Key) => CompareRooms(m, sort, a, b) < 0, keys)
    ensures RoomBefore(m, sort, keys[k], keys[l])
  {
    hide CompareRooms, RoomBefore;
    var less := (a: Key, b: Key) => CompareRooms(m, sort, a, b) < 0;
    assert less(keys[k], keys[l]);
    LessIsRoomBefore(m, sort, keys[k], keys[l]);
  }

  /** Sorted by time, the rooms themselves come in the order of their newest or oldest result. */
  lemma RoomsFollowTime(results: seq<Event>, sort: Sort, order: seq<Key>, i: nat, j: nat)
    requires Enumerates(order, BoundsOf(results)) && !sort.Relevance? && i < j < |results|
    ensures var out, m := Listing(results, sort, ByRoom, order), BoundsOf(results);
            && |out| == |results| && out[i] < |results| && out[j] < |results|
            && KeyOf(results[out[i]]) in m && KeyOf(results[out[j]]) in m
            && (KeyOf(results[out[i]]) != KeyOf(results[out[j]]) ==>
                  RoomBefore(m, sort, KeyOf(results[out[i]]), KeyOf(results[out[j]])))
  {
    hide Listing, BoundsOf, GroupOrder, CompareResults, KeyOf, RoomBefore, Enumerates, Indices;
    var out, ranks := Listing(results, sort, ByRoom, order), GroupOrder(results, sort, order);
    ListingIsSorted(results, sort, order);
    var a, b := KeyOf(results[out[i]]), KeyOf(results[out[j]]);
    assert a in BoundsOf(results) by { BoundsSpec(results, a); }
    assert b in BoundsOf(results) by { BoundsSpec(results, b); }
    assert Rank(ranks, results[out[i]]) <= Rank(ranks, results[out[j]]) by { PrecedesByRank(results, sort, ranks, out[i], out[j]); }
    if a != b {
      RanksFollowTime(results, sort, order, a, b);
    }
  }

  lemma PrecedesByRank(results: seq<Event>, sort: Sort, ranks: map<Key, nat>, l: nat, r: nat)
    requires l < |results| && r < |results| && Precedes(results, sort, ranks, l, r)
    ensures Rank(ranks, results[l]) <= Rank(ranks, results[r])
  {
    hide CompareResults, Rank;
  }

  /** By relevance, a room seen among the first results ranks before one that is not. */
  lemma EarlierRoomsRankLower(results: seq<Event>, i: nat, a: Key, b: Key)
    requires i <= |results| && a in FirstSeen(results[..i]) && b in FirstSeen(results) && b !in FirstSeen(results[..i])
    ensures a in FirstSeen(results) && FirstSeen(results)[a] < FirstSeen(results)[b]
  {
    FirstSeenGrows(results, i, a);
    FirstSeenNumbers(results[..i]);
    LaterNumbersAreHigher(results, i, b);
  }

  lemma {:induction false} FirstSeenGrows(results: seq<Event>, i: nat, a: Key)
    requires i <= |results| && a in FirstSeen(results[..i])
    ensures a in FirstSeen(results) && FirstSeen(results)[a] == FirstSeen(results[..i])[a]
    ensures |FirstSeen(results[..i])| <= |FirstSeen(results)|
    decreases |results|
  {
    var n := |results| - 1;
    if i <= n {
      assert results[..n][..i] == results[..i];
      FirstSeenGrows(results[..n], i, a);
    } else {
      assert results[..i] == results;
    }
  }

  lemma {:induction false} LaterNumbersAreHigher(results: seq<Event>, i: nat, b: Key)
    requires i <= |results| && b in FirstSeen(results) && b !in FirstSeen(results[..i])
    ensures FirstSeen(results)[b] >= |FirstSeen(results[..i])|
    decreases |results|
  {
    assert results[..|results|] == results;
    var n := |results| - 1;
    if i <= n {
      assert results[..n][..i] == results[..i];
      if b in FirstSeen(results[..n]) {
        LaterNumbersAreHigher(results[..n], i, b);
      } else {
        SizeGrows(results[..n], i);
      }
    }
  }

  lemma {:induction false} SizeGrows(results: seq<Event>, i: nat)
    requires i <= |results|
    ensures |FirstSeen(results[..i])| <= |FirstSeen(results)|
    decreases |results|
  {
    var n := |results| - 1;
    if i <= n {
      assert results[..n][..i] == results[..i];
      SizeGrows(results[..n], i);
    } else {
      assert results[..i] == results;
    }
  }

  /** Of two ranked rooms, the one listed first reaches at least as far in the chosen direction. */
  lemma RankFollowsBounds(results: seq<Event>, sort: Sort, order: seq<Key>, a: Key, b: Key)
    requires Enumerates(order, BoundsOf(results)) && !sort.Relevance?
    requires a in BoundsOf(results) && b in BoundsOf(results)
    ensures var ranks, m := GroupOrder(results, sort, order), BoundsOf(results);
            && a in ranks && b in ranks
            && (ranks[a] <= ranks[b] ==> if sort.OldestFirst? then m[a].0 <= m[b].0 else m[b].1 <= m[a].1)
  {
    hide BoundsOf, GroupOrder, Enumerates;
    if a == b {
      RoomHasRank(results, sort, order, a);
    } else {
      RanksFollowTime(results, sort, order, a, b);
    }
  }

  lemma RoomHasRank(results: seq<Event>, sort: Sort, order: seq<Key>, a: Key)
    requires Enumerates(order, BoundsOf(results)) && a in BoundsOf(results)
    ensures a in GroupOrder(results, sort, order)
  {
    hide BoundsOf, GroupOrder, Enumerates;
    BoundsSpec(results, a);
    GroupOrderSpec(results, sort, order);
  }

  lemma FirstHasLeastRank(results: seq<Event>, sort: Sort, order: seq<Key>, i: nat)
    requires Enumerates(order, BoundsOf(results)) && i < |results|
    ensures var out, ranks := Listing(results, sort, ByRoom, order), GroupOrder(results, sort, order);
            && |out| == |results| && out[0] < |results|
            && Rank(ranks, results[out[0]]) <= Rank(ranks, results[i])
            && (KeyOf(results[out[0]]) == KeyOf(results[i]) ==> CompareResults(results, sort, out[0], i) <= 0)
  {
    hide Listing, GroupOrder, BoundsOf, Enumerates, CompareResults;
    var out, ranks := Listing(results, sort, ByRoom, order), GroupOrder(results, sort, order);
    ListingIsSorted(results, sort, order);
    SameElements(out, Indices(|results|), i);
    assert Indices(|results|)[i] == i;
    var k :| 0 <= k < |out| && out[k] == i;
    assert At(results, out[0]) == results[out[0]] && At(results, i) == results[i];
    if k == 0 {
      CompareResultsIsOrder(results, sort, i, i, i);
    } else {
      assert Precedes(results, sort, ranks, out[0], out[k]);
    }
  }

  /** The first entry is a global extreme: the newest, the oldest, or the most relevant result. */
  lemma FirstIsExtreme(results: seq<Event>, sort: Sort, order: seq<Key>, i: nat)
    requires Enumerates(order, BoundsOf(results)) && i < |results|
    ensures var out := Listing(results, sort, ByRoom, order);
            && |out| == |results| && out[0] < |results|
            && match sort
               case NewestFirst => results[i].ts <= results[out[0]].ts
               case OldestFirst => results[out[0]].ts <= results[i].ts
               case Relevance => out[0] == 0
  {
    hide Listing, GroupOrder, BoundsOf, Enumerates, CompareText, FirstSeen;
    var out, ranks, m := Listing(results, sort, ByRoom, order), GroupOrder(results, sort, order), BoundsOf(results);
    FirstHasLeastRank(results, sort, order, i);
    GroupOrderSpec(results, sort, order);
    var first := results[out[0]];
    var a, b := KeyOf(first), KeyOf(results[i]);
    if sort.Relevance? {
      FirstHasLeastRank(results, sort, order, 0);
      assert ranks == FirstSeen(results) by { RelevanceRanks(results, order); }
      FirstSeenNumbers(results);
    } else {
      BoundsSpec(results, a);
      BoundsSpec(results, b);
      assert KeyOf(results[out[0]]) == a && KeyOf(results[i]) == b;
      RankFollowsBounds(results, sort, order, a, b);
      var j := if sort.OldestFirst? then var j :| 0 <= j < |results| && KeyOf(results[j]) == a && results[j].ts == m[a].0; j
               else var j :| 0 <= j < |results| && KeyOf(results[j]) == a && results[j].ts == m[a].1; j;
      FirstHasLeastRank(results, sort, order, j);
    }
  }

  lemma RelevanceRanks(results: seq<Event>, order: seq<Key>)
    ensures GroupOrder(results, Relevance, order) == FirstSeen(results)
  {
  }

  // ----- The loops -----

  method RoomGroupOrder(results: seq<Event>, sort: Sort, order: seq<Key>) returns (ranks: map<Key, nat>)
    ensures ranks == GroupOrder(results, sort, order)
  {
    if sort.Relevance? {
      var rooms: map<Key, nat> := map[];
      for n := 0 to |results|
        invariant rooms == FirstSeen(results[..n])
      {
        var next := |rooms|;
        if KeyOf(results[n]) !in rooms {
          rooms := rooms[KeyOf(results[n]) := next];
        }
        assert results[..n + 1][..n] == results[..n];
      }
      assert results[..|results|] == results;
      return rooms;
    }
    var bounds: map<Key, (int, int)> := map[];
    for n := 0 to |results|
      invariant bounds == BoundsOf(results[..n])
    {
      var e := results[n];
      var entry := if KeyOf(e) in bounds then bounds[KeyOf(e)] else (e.ts, e.ts);
      bounds := bounds[KeyOf(e) := (if e.ts < entry.0 then e.ts else entry.0, if e.ts > entry.1 then e.ts else entry.1)];
      assert results[..n + 1][..n] == results[..n];
    }
    assert results[..|results|] == results;
    var rooms := StableSort((a: Key, b: Key) => CompareRooms(bounds, sort, a, b) <= 0, order);
    ranks := map[];
    for n := 0 to |rooms|
      invariant ranks == Positions(rooms[..n])
    {
      ranks := ranks[rooms[n] := n];
      assert rooms[..n + 1][..n] == rooms[..n];
    }
    assert rooms[..|rooms|] == rooms;
  }

  method OrderedIndices(results: seq<Event>, sort: Sort, grouping: Grouping, order: seq<Key>) returns (out: seq<nat>)
    requires Enumerates(order, BoundsOf(results))
    ensures out == Listing(results, sort, grouping, order)
    ensures multiset(out) == multiset(Indices(|results|))
    ensures grouping.Ungrouped? ==> |out| == |results| && forall i :: 0 <= i < |out| ==> out[i] == i
  {
    out := Indices(|results|);
    if grouping.ByRoom? {
      var ranks := RoomGroupOrder(results, sort, order);
      ListingIsSorted(results, sort, order);
      out := StableSort((l: nat, r: nat) => CompareIndices(results, sort, ranks, l, r) <= 0, out);
    }
  }
}
