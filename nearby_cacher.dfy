/** The nearest-neighbour cache builder: for every location record, the names of the
    `length` closest other records, nearest first. */
module NearbyCacher {
  import opened Seqs
  import opened Geo

  /** A geocoded location record `{nme, lat, lng}`. */
  datatype Location = Location(nme: string, lat: real, lng: real)

  /** A `[name, distance]` pair. */
  type Pair = (string, nat)

  /** One single-key object `{name: [nearby names]}` of the cache. */
  datatype CacheEntry = CacheEntry(key: string, names: seq<string>)

  /** `coordObj`: a geolib-compatible coordinate object. */
  function CoordObj(lat: real, lng: real): LatLng
  {
    LatLng(lat, lng)
  }

  /** `dist`: the distance from one pair of coordinates to another. */
  function Dist(latA: real, lngA: real, latB: real, lngB: real, getDistance: GetDistance): nat
  {
    getDistance(CoordObj(latA, lngA), CoordObj(latB, lngB))
  }

  /** The distance from `other` to `item`, with the arguments in the order the cacher
      passes them. */
  function DistTo(other: Location, item: Location, getDistance: GetDistance): nat
  {
    Dist(other.lat, other.lng, item.lat, item.lng, getDistance)
  }

  /** The pairs are ordered by their second components. */
  ghost predicate SortedBySecond(s: seq<Pair>)
  {
    forall i, j :: 0 <= i < j < |s| ==> s[i].1 <= s[j].1
  }

  /** A pair no farther than every pair of a sorted list can be put in front of it. */
  lemma SortedCons(p: Pair, s: seq<Pair>)
    requires SortedBySecond(s)
    requires forall q | q in s :: p.1 <= q.1
    ensures SortedBySecond([p] + s)
  {
    forall i, j | 0 <= i < j < |[p] + s|
      ensures ([p] + s)[i].1 <= ([p] + s)[j].1
    {
      if i > 0 {
        assert ([p] + s)[i] == s[i - 1];
      }
      assert ([p] + s)[j] == s[j - 1];
      assert s[j - 1] in s;
    }
  }

  /** Inserts `x` in front of the first pair that is not closer than it. */
  function Insert(x: Pair, s: seq<Pair>): seq<Pair>
  {
    if s == [] || x.1 <= s[0].1 then [x] + s
    else [s[0]] + Insert(x, s[1..])
  }

  /** Insertion adds exactly `x`. */
  lemma {:induction false} InsertPermutes(x: Pair, s: seq<Pair>)
    ensures multiset(Insert(x, s)) == multiset(s) + multiset{x}
  {
    if s != [] && x.1 > s[0].1 {
      InsertPermutes(x, s[1..]);
      assert s == [s[0]] + s[1..];
    }
  }

  /** Insertion into a list sorted by distance keeps it sorted. */
  lemma {:induction false} InsertSorted(x: Pair, s: seq<Pair>)
    requires SortedBySecond(s)
    ensures SortedBySecond(Insert(x, s))
  {
    if s == [] || x.1 <= s[0].1 {
      SortedCons(x, s);
    } else {
      var rest := Insert(x, s[1..]);
      InsertSorted(x, s[1..]);
      InsertPermutes(x, s[1..]);
      forall q | q in rest ensures s[0].1 <= q.1 {
        assert q in multiset(rest);
      }
      SortedCons(s[0], rest);
    }
  }

  /** `pairsSecondSort` (`R.sortBy(x => x[1])`): a stable sort by distance. The result is
      a permutation of the input whose distances never decrease. */
  function PairsSecondSort(arr: seq<Pair>): (r: seq<Pair>)
    ensures SortedBySecond(r)
    ensures multiset(r) == multiset(arr)
    ensures |r| == |arr|
  {
    if arr == [] then []
    else
      var sorted := PairsSecondSort(arr[1..]);
      InsertSorted(arr[0], sorted);
      InsertPermutes(arr[0], sorted);
      assert arr == [arr[0]] + arr[1..];
      Insert(arr[0], sorted)
  }

  /** `pairsToFirst`: the first component of every pair, in order. */
  function PairsToFirst(arr: seq<Pair>): (r: seq<string>)
    ensures |r| == |arr|
    ensures forall i :: 0 <= i < |arr| ==> r[i] == arr[i].0
  {
    if arr == [] then [] else [arr[0].0] + PairsToFirst(arr[1..])
  }

  /** What `otherSuburbsArr` builds: one `[nme, distance to item]` pair per record that is
      not structurally equal to `item`, in the order of `obj`. */
  function OtherSuburbs(item: Location, obj: seq<Location>, getDistance: GetDistance): (r: seq<Pair>)
    ensures |r| == |Without(item, obj)|
    ensures forall k :: 0 <= k < |r| ==>
      r[k] == (Without(item, obj)[k].nme, DistTo(Without(item, obj)[k], item, getDistance))
  {
    if obj == [] then []
    else
      var rest := OtherSuburbs(item, obj[1..], getDistance);
      if obj[0] == item then rest
      else [(obj[0].nme, DistTo(obj[0], item, getDistance))] + rest
  }

  /** `otherSuburbsArr`: the loop over the other records that pushes one pair per record. */
  method OtherSuburbsArr(item: Location, obj: seq<Location>, getDistance: GetDistance)
    returns (arr: seq<Pair>)
    ensures |arr| == |obj| - multiset(obj)[item]
    ensures forall k :: 0 <= k < |arr| ==>
      arr[k] == (Without(item, obj)[k].nme, DistTo(Without(item, obj)[k], item, getDistance))
    ensures arr == OtherSuburbs(item, obj, getDistance)
  {
    var otherSuburbs := Without(item, obj);
    arr := [];
    var i := 0;
    while i < |otherSuburbs|
      invariant 0 <= i <= |otherSuburbs|
      invariant |arr| == i
      invariant forall k :: 0 <= k < i ==>
        arr[k] == (otherSuburbs[k].nme, DistTo(otherSuburbs[k], item, getDistance))
    {
      var otherItem := otherSuburbs[i];
      arr := arr + [(otherItem.nme, Dist(otherItem.lat, otherItem.lng, item.lat, item.lng, getDistance))];
      i := i + 1;
    }
  }

  /** The other records' pairs, nearest first: the list `nearbySuburbsArr` takes its names
      from. */
  function Ranked(item: Location, obj: seq<Location>, getDistance: GetDistance): seq<Pair>
  {
    PairsSecondSort(OtherSuburbs(item, obj, getDistance))
  }

  /** `nearbySuburbsArr`: sort the pairs by distance, keep the names, take `length`. */
  function NearbySuburbsArr(item: Location, length: nat, obj: seq<Location>, getDistance: GetDistance)
    : seq<string>
  {
    Take(PairsToFirst(PairsSecondSort(OtherSuburbs(item, obj, getDistance))), length)
  }

  /** The entries `cacher` pushes for `items`, in order. */
  function CacheOf(items: seq<Location>, length: nat, obj: seq<Location>, getDistance: GetDistance)
    : (r: seq<CacheEntry>)
    ensures |r| == |items|
    ensures forall i :: 0 <= i < |items| ==>
      r[i] == CacheEntry(items[i].nme, NearbySuburbsArr(items[i], length, obj, getDistance))
  {
    if items == [] then []
    else
      var last := items[|items| - 1];
      CacheOf(items[..|items| - 1], length, obj, getDistance)
        + [CacheEntry(last.nme, NearbySuburbsArr(last, length, obj, getDistance))]
  }

  /** `cacher`: one single-key entry per input record, in input order. Records with equal
      names give separate entries. */
  method Cacher(length: nat, obj: seq<Location>, getDistance: GetDistance)
    returns (cachedData: seq<CacheEntry>)
    ensures |cachedData| == |obj|
    ensures forall i :: 0 <= i < |obj| ==>
      cachedData[i] == CacheEntry(obj[i].nme, NearbySuburbsArr(obj[i], length, obj, getDistance))
  {
    cachedData := [];
    var i := 0;
    while i < |obj|
      invariant 0 <= i <= |obj|
      invariant cachedData == CacheOf(obj[..i], length, obj, getDistance)
    {
      var item := obj[i];
      assert obj[..i + 1][..i] == obj[..i];
      cachedData := cachedData + [CacheEntry(item.nme, NearbySuburbsArr(item, length, obj, getDistance))];
      i := i + 1;
    }
    assert obj[..i] == obj;
  }

  /** `nearbySuburbsArr` returns `length` names, or one per other record when there are
      fewer; every copy of `item` is left out of that count. */
  lemma NearbyLength(item: Location, length: nat, obj: seq<Location>, getDistance: GetDistance)
    ensures var n := |obj| - multiset(obj)[item];
            |NearbySuburbsArr(item, length, obj, getDistance)| == if length <= n then length else n
  {
  }

  /** The names `nearbySuburbsArr` returns are those of the nearest other records: the
      ranked pairs never get closer, the names are the first ones of the ranking, and every
      pair left out is at least as far away as the last one kept. */
  lemma NearestFirst(item: Location, length: nat, obj: seq<Location>, getDistance: GetDistance)
    ensures var ranked := Ranked(item, obj, getDistance);
            var r := NearbySuburbsArr(item, length, obj, getDistance);
            && |r| <= |ranked|
            && (forall i :: 0 <= i < |r| ==> r[i] == ranked[i].0)
            && (forall i, j :: 0 <= i < j < |ranked| ==> ranked[i].1 <= ranked[j].1)
            && (forall i, j :: 0 <= i < |r| <= j < |ranked| ==> ranked[i].1 <= ranked[j].1)
  {
  }

  /** The ranking holds a `[nme, distance]` pair for every record that is not
      structurally equal to `item`: records that only share its name are ranked too. */
  lemma {:induction false} RankedRecords(item: Location, obj: seq<Location>, getDistance: GetDistance)
    ensures forall o :: o in obj && o != item ==>
      (o.nme, DistTo(o, item, getDistance)) in Ranked(item, obj, getDistance)
    ensures forall p :: p in Ranked(item, obj, getDistance) ==>
      exists o :: o in obj && o != item && p == (o.nme, DistTo(o, item, getDistance))
  {
    var others := Without(item, obj);
    var pairs := OtherSuburbs(item, obj, getDistance);
    var ranked := Ranked(item, obj, getDistance);
    forall o | o in obj && o != item
      ensures (o.nme, DistTo(o, item, getDistance)) in ranked
    {
      assert o in others;
      var k :| 0 <= k < |others| && others[k] == o;
      assert pairs[k] in multiset(pairs);
    }
    forall p | p in ranked
      ensures exists o :: o in obj && o != item && p == (o.nme, DistTo(o, item, getDistance))
    {
      assert p in multiset(ranked);
      assert p in pairs;
      var k :| 0 <= k < |pairs| && pairs[k] == p;
      assert others[k] in others;
    }
  }

  /** When no other record shares `item`'s name, `item`'s own name is never among its
      nearby names. */
  lemma SelfExcluded(item: Location, length: nat, obj: seq<Location>, getDistance: GetDistance)
    requires forall o :: o in obj && o.nme == item.nme ==> o == item
    ensures item.nme !in NearbySuburbsArr(item, length, obj, getDistance)
  {
    var r := NearbySuburbsArr(item, length, obj, getDistance);
    var ranked := Ranked(item, obj, getDistance);
    NearestFirst(item, length, obj, getDistance);
    RankedRecords(item, obj, getDistance);
    forall i | 0 <= i < |r|
      ensures r[i] != item.nme
    {
      assert ranked[i] in ranked;
    }
  }

  /** Exclusion is by structural equality, not by name: a different record with the same
      name is listed when `length` leaves room for every other record. */
  lemma SameNameKept(item: Location, other: Location, length: nat, obj: seq<Location>, getDistance: GetDistance)
    requires other in obj && other != item && other.nme == item.nme
    requires length >= |obj| - multiset(obj)[item]
    ensures item.nme in NearbySuburbsArr(item, length, obj, getDistance)
  {
    var r := NearbySuburbsArr(item, length, obj, getDistance);
    var ranked := Ranked(item, obj, getDistance);
    NearestFirst(item, length, obj, getDistance);
    RankedRecords(item, obj, getDistance);
    var k :| 0 <= k < |ranked| && ranked[k] == (other.nme, DistTo(other, item, getDistance));
    assert r[k] == item.nme;
  }
}
