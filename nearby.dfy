/** The older, selection-based nearby-suburbs computation. It repeatedly takes the smallest
    remaining distance, drops every copy of it, maps each chosen distance back to its first
    position, and reads a name at that position. The suburb table is a parameter instead of
    a loaded module. The computation's quirks are kept: the first minimum is recorded twice,
    and the positions found in the list WITHOUT the suburb are read in the FULL table. */
module Nearby {
  import opened Wrappers
  import opened Seqs
  import opened Geo

  /** A suburb record `{text, lat, long}`. */
  datatype Suburb = Suburb(text: string, lat: real, long: real)

  /** The result of `Math.min`: a number, or `Infinity` for an empty argument list. */
  datatype Num = Fin(val: nat) | Infinity

  /** `getSuburbFromName`: the first record whose `text` is `name`, or `undefined`. */
  function GetSuburbFromName(name: string, suburbsData: seq<Suburb>): (r: Option<Suburb>)
    ensures r.None? <==> forall i :: 0 <= i < |suburbsData| ==> suburbsData[i].text != name
    ensures r.Some? ==> r.value.text == name && exists i :: (0 <= i < |suburbsData| && suburbsData[i] == r.value
      && forall j :: 0 <= j < i ==> suburbsData[j].text != name)
  {
    if suburbsData == [] then None
    else if suburbsData[0].text == name then
      assert suburbsData[0] == suburbsData[0];
      Some(suburbsData[0])
    else
      var r := GetSuburbFromName(name, suburbsData[1..]);
      if r.Some? then
        var i :| 0 <= i < |suburbsData[1..]| && suburbsData[1..][i] == r.value
          && r.value.text == name && forall j :: 0 <= j < i ==> suburbsData[1..][j].text != name;
        assert suburbsData[i + 1] == r.value;
        assert forall j :: 0 <= j < i + 1 ==> suburbsData[j].text != name by {
          forall j | 0 <= j < i + 1 ensures suburbsData[j].text != name {
            if j > 0 {
              assert suburbsData[j] == suburbsData[1..][j - 1];
            }
          }
        }
        r
      else
        assert forall i :: 0 <= i < |suburbsData| ==> suburbsData[i].text != name by {
          forall i | 0 <= i < |suburbsData| ensures suburbsData[i].text != name {
            if i > 0 {
              assert suburbsData[i] == suburbsData[1..][i - 1];
            }
          }
        }
        r
  }

  /** `getCoords`: the geolib coordinates of a record. */
  function GetCoords(suburb: Suburb): LatLng
  {
    LatLng(suburb.lat, suburb.long)
  }

  /** The distance from `origin` to every record of `data`, in order. */
  function Distances(origin: Suburb, data: seq<Suburb>, getDistance: GetDistance): (r: seq<nat>)
    ensures |r| == |data|
    ensures forall i :: 0 <= i < |data| ==> r[i] == getDistance(GetCoords(origin), GetCoords(data[i]))
  {
    if data == [] then []
    else [getDistance(GetCoords(origin), GetCoords(data[0]))] + Distances(origin, data[1..], getDistance)
  }

  /** `distToAll`: one distance from the named suburb per record of `data`. The named
      suburb is looked up again for every record, so a name missing from the table makes
      the lookup throw as soon as `data` is not empty. */
  method DistToAll(name: string, data: seq<Suburb>, suburbsData: seq<Suburb>, getDistance: GetDistance)
    returns (distArr: seq<nat>)
    requires |data| > 0 ==> GetSuburbFromName(name, suburbsData).Some?
    ensures |distArr| == |data|
    ensures forall i :: 0 <= i < |data| ==>
      distArr[i] == getDistance(GetCoords(GetSuburbFromName(name, suburbsData).value), GetCoords(data[i]))
  {
    distArr := [];
    var i := 0;
    while i < |data|
      invariant 0 <= i <= |data|
      invariant |distArr| == i
      invariant forall k :: 0 <= k < i ==>
        distArr[k] == getDistance(GetCoords(GetSuburbFromName(name, suburbsData).value), GetCoords(data[k]))
    {
      var suburb := GetSuburbFromName(name, suburbsData);
      distArr := distArr + [getDistance(GetCoords(suburb.value), GetCoords(data[i]))];
      i := i + 1;
    }
  }

  /** `otherSuburbsData`: the table without every record equal to the named suburb. For a
      missing name nothing is equal to `undefined`, so the whole table is kept. */
  function OtherSuburbsData(name: string, suburbsData: seq<Suburb>): (r: seq<Suburb>)
    ensures GetSuburbFromName(name, suburbsData).None? ==> r == suburbsData
    ensures GetSuburbFromName(name, suburbsData).Some? ==>
      var suburb := GetSuburbFromName(name, suburbsData).value;
      && suburb !in r
      && (forall x :: x != suburb ==> multiset(r)[x] == multiset(suburbsData)[x])
  {
    match GetSuburbFromName(name, suburbsData)
    case None => suburbsData
    case Some(suburb) => Without(suburb, suburbsData)
  }

  /** The distances to the other records can be computed: the suburb is known, or there is
      no other record to measure (otherwise the lookup of `undefined.lat` throws). */
  predicate DistancesDefined(name: string, suburbsData: seq<Suburb>)
  {
    GetSuburbFromName(name, suburbsData).Some? || suburbsData == []
  }

  /** What `distToOthers` computes: the distance from the named suburb to every other
      record, in table order. */
  function DistancesToOthers(name: string, suburbsData: seq<Suburb>, getDistance: GetDistance): (r: seq<nat>)
    requires DistancesDefined(name, suburbsData)
    ensures |r| == |OtherSuburbsData(name, suburbsData)|
    ensures GetSuburbFromName(name, suburbsData).Some? ==>
      forall i :: 0 <= i < |r| ==> r[i] == getDistance(
        GetCoords(GetSuburbFromName(name, suburbsData).value), GetCoords(OtherSuburbsData(name, suburbsData)[i]))
  {
    match GetSuburbFromName(name, suburbsData)
    case None => []
    case Some(suburb) => Distances(suburb, OtherSuburbsData(name, suburbsData), getDistance)
  }

  /** `distToOthers`. Its `data` argument is ignored: the distances are always those to the
      other records of the whole table. */
  method DistToOthers(name: string, data: seq<Suburb>, suburbsData: seq<Suburb>, getDistance: GetDistance)
    returns (distArr: seq<nat>)
    requires DistancesDefined(name, suburbsData)
    ensures distArr == DistancesToOthers(name, suburbsData, getDistance)
  {
    distArr := DistToAll(name, OtherSuburbsData(name, suburbsData), suburbsData, getDistance);
  }

  /** `arrMin` (`Math.min.apply(null, data)`): the least element, or `Infinity` for an
      empty list. */
  function ArrMin(data: seq<nat>): (r: Num)
    ensures r.Infinity? <==> data == []
    ensures r.Fin? ==> r.val in data && forall x :: x in data ==> r.val <= x
  {
    if data == [] then Infinity
    else
      assert data == [data[0]] + data[1..];
      match ArrMin(data[1..])
      case Infinity => Fin(data[0])
      case Fin(m) => if data[0] <= m then Fin(data[0]) else Fin(m)
  }

  /** `arrWithoutItem`: every element equal to `item` is removed; nothing equals
      `Infinity`. */
  function ArrWithoutItem(item: Num, data: seq<nat>): (r: seq<nat>)
    ensures forall x :: x in r <==> x in data && item != Fin(x)
    ensures forall x :: item != Fin(x) ==> multiset(r)[x] == multiset(data)[x]
  {
    match item
    case Infinity => data
    case Fin(v) => Without(v, data)
  }

  /** `R.indexOf`: the first position of `value` in `data`, or -1. */
  function IndexOf(value: Num, data: seq<nat>): (r: int)
    ensures -1 <= r < |data|
    ensures r == -1 <==> value.Infinity? || value.val !in data
    ensures r >= 0 ==> value == Fin(data[r]) && forall j :: 0 <= j < r ==> data[j] != data[r]
  {
    if data == [] then -1
    else if value == Fin(data[0]) then 0
    else
      var r := IndexOf(value, data[1..]);
      if r == -1 then -1
      else
        assert forall j :: 0 < j < r + 1 ==> data[j] == data[1..][j - 1];
        r + 1
  }

  /** The set of values of a list. */
  function Values(data: seq<nat>): set<nat>
  {
    set x | x in data
  }

  /** The number of distinct values of a list. */
  function DistinctCount(data: seq<nat>): nat
  {
    |Values(data)|
  }

  /** The cardinality of a subset. */
  lemma SubsetCard(s: set<nat>, t: set<nat>)
    requires s <= t
    ensures |t| == |s| + |t - s|
    ensures s < t ==> |s| < |t|
  {
    assert t == s + (t - s);
    if s < t {
      var x :| x in t - s;
    }
  }

  /** `mins` lists the smallest distinct values of `dists` in increasing order, one per
      position, and `Infinity` at the positions beyond the number of distinct values; every
      value of `dists` that is not listed is larger than every listed one. */
  ghost predicate IncreasingDistinctMinima(dists: seq<nat>, mins: seq<Num>)
  {
    && (forall j :: 0 <= j < |mins| ==> (mins[j].Fin? <==> j < DistinctCount(dists)))
    && (forall j :: 0 <= j < |mins| && mins[j].Fin? ==> mins[j].val in dists)
    && (forall j, k :: 0 <= j < k < |mins| && mins[k].Fin? ==>
          mins[j].Fin? && mins[j].val < mins[k].val)
    && (forall j, x :: 0 <= j < |mins| && mins[j].Fin? && x in dists && Fin(x) !in mins ==>
          mins[j].val < x)
  }

  /** The state of the selection loop after the values `mins` were taken: `taken` holds
      them, and `remaining` is `dists` without every copy of each. */
  ghost predicate SelectionState(dists: seq<nat>, taken: set<nat>, remaining: seq<nat>, mins: seq<Num>)
  {
    TakenState(dists, taken, remaining, |mins|) && MinsState(dists, taken, mins)
  }

  /** After `rounds` rounds, `taken` holds the smallest distinct values (as many as there
      were rounds, or all of them) and `remaining` the rest. */
  ghost predicate TakenState(dists: seq<nat>, taken: set<nat>, remaining: seq<nat>, rounds: nat)
  {
    var values := Values(dists);
    && taken <= values
    && remaining == WithoutAll(taken, dists)
    && (forall x, y :: x in taken && y in dists && y !in taken ==> x < y)
    && (if rounds <= |values| then |taken| == rounds else taken == values)
  }

  /** The recorded minima are the taken values, increasing, then `Infinity`. */
  ghost predicate MinsState(dists: seq<nat>, taken: set<nat>, mins: seq<Num>)
  {
    && (forall j :: 0 <= j < |mins| ==> (mins[j].Fin? <==> j < DistinctCount(dists)))
    && (forall j :: 0 <= j < |mins| && mins[j].Fin? ==> mins[j].val in taken)
    && (forall x :: x in taken ==> Fin(x) in mins)
    && (forall j, k :: 0 <= j < k < |mins| && mins[k].Fin? ==>
          mins[j].Fin? && mins[j].val < mins[k].val)
  }

  /** One round of the selection loop keeps its state. */
  lemma SelectionStep(dists: seq<nat>, taken: set<nat>, remaining: seq<nat>, mins: seq<Num>)
    requires SelectionState(dists, taken, remaining, mins)
    ensures var m := ArrMin(remaining);
      SelectionState(dists, if m.Fin? then taken + {m.val} else taken,
        ArrWithoutItem(m, remaining), mins + [m])
  {
    if remaining == [] {
      SelectionStepExhausted(dists, taken, remaining, mins);
    } else {
      var v := ArrMin(remaining).val;
      TakenStep(dists, taken, remaining, |mins|);
      MinsStep(dists, taken, mins, v);
    }
  }

  /** A round that finds a minimum adds it to the taken values and removes every copy of it
      from the remaining ones. */
  lemma TakenStep(dists: seq<nat>, taken: set<nat>, remaining: seq<nat>, rounds: nat)
    requires TakenState(dists, taken, remaining, rounds)
    requires remaining != []
    ensures ArrMin(remaining).Fin?
    ensures var v := ArrMin(remaining).val;
      && v in dists && v !in taken && rounds < DistinctCount(dists)
      && (forall x :: x in taken ==> x < v)
      && TakenState(dists, taken + {v}, Without(v, remaining), rounds + 1)
  {
    var v := ArrMin(remaining).val;
    var taken' := taken + {v};
    assert v in dists && v !in taken;
    CountStep(Values(dists), taken, v, rounds);
    WithoutOfWithoutAll(v, taken, dists);
    TakenOrder(dists, taken, remaining, v);
  }

  /** The least remaining value is below every value that is still not taken. */
  lemma TakenOrder(dists: seq<nat>, taken: set<nat>, remaining: seq<nat>, v: nat)
    requires remaining == WithoutAll(taken, dists)
    requires forall x, y :: x in taken && y in dists && y !in taken ==> x < y
    requires ArrMin(remaining) == Fin(v)
    ensures forall x, y :: x in taken + {v} && y in dists && y !in taken + {v} ==> x < y
  {
    forall x, y | x in taken + {v} && y in dists && y !in taken + {v} ensures x < y {
      if x == v {
        assert y in remaining;
      }
    }
  }

  /** Taking one more value that was not taken yet counts one more round. */
  lemma CountStep(values: set<nat>, taken: set<nat>, v: nat, rounds: nat)
    requires taken <= values && v in values && v !in taken
    requires if rounds <= |values| then |taken| == rounds else taken == values
    ensures rounds < |values|
    ensures taken + {v} <= values
    ensures |taken + {v}| == rounds + 1
  {
    SubsetCard(taken, values);
    assert taken < values;
  }

  /** Recording a value larger than every taken one keeps the minima increasing. */
  lemma MinsStep(dists: seq<nat>, taken: set<nat>, mins: seq<Num>, v: nat)
    requires MinsState(dists, taken, mins)
    requires |mins| < DistinctCount(dists)
    requires forall x :: x in taken ==> x < v
    ensures MinsState(dists, taken + {v}, mins + [Fin(v)])
  {
    var taken' := taken + {v};
    var mins' := mins + [Fin(v)];
    forall x | x in taken' ensures Fin(x) in mins' {
      if x in taken {
        var j :| 0 <= j < |mins| && mins[j] == Fin(x);
        assert mins'[j] == Fin(x);
      } else {
        assert mins'[|mins|] == Fin(x);
      }
    }
    forall j, k | 0 <= j < k < |mins'| && mins'[k].Fin?
      ensures mins'[j].Fin? && mins'[j].val < mins'[k].val
    {
      if k == |mins| {
        assert mins'[j] == mins[j] && mins[j].Fin?;
        assert mins[j].val in taken;
      } else {
        assert mins'[j] == mins[j] && mins'[k] == mins[k];
      }
    }
  }

  /** A round that finds nothing left records `Infinity`. */
  lemma SelectionStepExhausted(dists: seq<nat>, taken: set<nat>, remaining: seq<nat>, mins: seq<Num>)
    requires SelectionState(dists, taken, remaining, mins)
    requires remaining == []
    ensures ArrMin(remaining).Infinity?
    ensures SelectionState(dists, taken, remaining, mins + [Infinity])
  {
    var values := Values(dists);
    forall x | x in values ensures x in taken {
      assert x in dists && x !in remaining;
    }
    assert taken == values;
    assert |mins| >= |values|;
  }

  /** The minima recorded by the selection loop: `rounds` more rounds, each appending the
      least remaining value to `mins` and removing every copy of it from `remaining`. */
  function Selected(mins: seq<Num>, remaining: seq<nat>, rounds: nat): (r: seq<Num>)
    ensures |r| == |mins| + rounds
    ensures forall k :: 0 <= k < |mins| ==> r[k] == mins[k]
    decreases rounds
  {
    if rounds == 0 then mins
    else Selected(mins + [ArrMin(remaining)], ArrWithoutItem(ArrMin(remaining), remaining), rounds - 1)
  }

  /** Rounds that start from a selection state, after the duplicated first minimum, list
      the increasing distinct minima. */
  lemma {:induction false} SelectedMinima(dists: seq<nat>, taken: set<nat>, remaining: seq<nat>,
                                          mins: seq<Num>, rounds: nat)
    requires |mins| >= 1
    requires SelectionState(dists, taken, remaining, mins[1..])
    ensures IncreasingDistinctMinima(dists, Selected(mins, remaining, rounds)[1..])
    decreases rounds
  {
    if rounds == 0 {
      SelectionResult(dists, taken, remaining, mins[1..]);
    } else {
      var m := ArrMin(remaining);
      SelectionStep(dists, taken, remaining, mins[1..]);
      assert (mins + [m])[1..] == mins[1..] + [m];
      SelectedMinima(dists, if m.Fin? then taken + {m.val} else taken,
        ArrWithoutItem(m, remaining), mins + [m], rounds - 1);
    }
  }

  /** A finished selection lists the increasing distinct minima. */
  lemma SelectionResult(dists: seq<nat>, taken: set<nat>, remaining: seq<nat>, mins: seq<Num>)
    requires SelectionState(dists, taken, remaining, mins)
    ensures IncreasingDistinctMinima(dists, mins)
  {
  }

  /** The selection loop records the minimum of `dists` twice and then the increasing
      distinct minima. */
  lemma SelectionLoop(dists: seq<nat>, rounds: nat)
    ensures var r := Selected([ArrMin(dists)], dists, rounds);
      && r[0] == ArrMin(dists)
      && (rounds > 0 ==> r[1] == r[0])
      && IncreasingDistinctMinima(dists, r[1..])
  {
    WithoutAllNone({}, dists);
    assert [ArrMin(dists)][1..] == [];
    SelectedMinima(dists, {}, dists, [ArrMin(dists)], rounds);
  }

  /** `arrMinsArr`: the minimum of the distances to the other records, followed by `length`
      successive minima of the list from which every copy of each minimum already taken has
      been removed. The first minimum is therefore recorded twice, and from position 1 on
      the values are the increasing distinct minima of the distances. */
  method ArrMinsArr(name: string, length: nat, suburbsData: seq<Suburb>, getDistance: GetDistance)
    returns (minsArr: seq<Num>)
    requires DistancesDefined(name, suburbsData)
    ensures |minsArr| == length + 1
    ensures minsArr[0] == ArrMin(DistancesToOthers(name, suburbsData, getDistance))
    ensures length > 0 ==> minsArr[1] == minsArr[0]
    ensures IncreasingDistinctMinima(DistancesToOthers(name, suburbsData, getDistance), minsArr[1..])
  {
    var remainingArr := DistToOthers(name, [], suburbsData, getDistance);
    ghost var dists := remainingArr;
    minsArr := [ArrMin(remainingArr)];
    var i := 0;
    while i < length
      invariant 0 <= i <= length
      invariant Selected(minsArr, remainingArr, length - i) == Selected([ArrMin(dists)], dists, length)
    {
      var minArr := ArrMin(remainingArr);
      minsArr := minsArr + [minArr];
      remainingArr := ArrWithoutItem(minArr, remainingArr);
      i := i + 1;
    }
    SelectionLoop(dists, length);
  }

  /** The distances found at the chosen positions (`Infinity` at -1). */
  function IndexedValues(dists: seq<nat>, idx: seq<int>): (r: seq<Num>)
    ensures |r| == |idx|
    ensures forall i :: 0 <= i < |idx| ==>
      r[i] == if 0 <= idx[i] < |dists| then Fin(dists[idx[i]]) else Infinity
  {
    if idx == [] then []
    else
      [if 0 <= idx[0] < |dists| then Fin(dists[idx[0]]) else Infinity] + IndexedValues(dists, idx[1..])
  }

  /** The positions `indexMinsArr` chooses in the list `dists` of distances to the other
      records: the first position of each of the `length` smallest distinct distances,
      nearest first, with -1 where the distinct distances have run out. */
  ghost predicate NearestFirstIndices(dists: seq<nat>, length: nat, idx: seq<int>)
  {
    && |idx| == length
    && (forall i :: 0 <= i < length ==> -1 <= idx[i] < |dists|)
    && (forall i :: 0 <= i < length && idx[i] >= 0 ==>
          forall j :: 0 <= j < idx[i] ==> dists[j] != dists[idx[i]])
    && IncreasingDistinctMinima(dists, IndexedValues(dists, idx))
  }

  /** `indexMinsArr`: the position in the distance list of every minimum after the first
      (duplicated) one. The positions found are pairwise distinct. */
  method IndexMinsArr(name: string, length: nat, suburbsData: seq<Suburb>, getDistance: GetDistance)
    returns (indexArr: seq<int>)
    requires DistancesDefined(name, suburbsData)
    ensures NearestFirstIndices(DistancesToOthers(name, suburbsData, getDistance), length, indexArr)
    ensures forall i, k :: 0 <= i < k < length && indexArr[k] >= 0 ==> indexArr[i] != indexArr[k]
  {
    var origArr := DistToOthers(name, [], suburbsData, getDistance);
    var minsArr := ArrMinsArr(name, length, suburbsData, getDistance);
    indexArr := [];
    var i := 1;
    while i < |minsArr|
      invariant 1 <= i <= |minsArr|
      invariant |indexArr| == i - 1
      invariant forall k :: 0 <= k < i - 1 ==> indexArr[k] == IndexOf(minsArr[k + 1], origArr)
    {
      indexArr := indexArr + [IndexOf(minsArr[i], origArr)];
      i := i + 1;
    }
    IndexesOfMinima(origArr, minsArr[1..], indexArr);
  }

  /** Looking up the first position of each increasing distinct minimum gives positions
      whose values are those minima. */
  lemma IndexesOfMinima(dists: seq<nat>, mins: seq<Num>, idx: seq<int>)
    requires IncreasingDistinctMinima(dists, mins)
    requires |idx| == |mins|
    requires forall k :: 0 <= k < |mins| ==> idx[k] == IndexOf(mins[k], dists)
    ensures NearestFirstIndices(dists, |mins|, idx)
    ensures forall i, k :: 0 <= i < k < |mins| && idx[k] >= 0 ==> idx[i] != idx[k]
  {
    forall k | 0 <= k < |mins|
      ensures IndexedValues(dists, idx)[k] == mins[k]
    {
      if mins[k].Fin? {
        assert mins[k].val in dists;
      }
    }
    assert IndexedValues(dists, idx) == mins;
  }

  /** `suburbsMinsArr`: the name of the table record at every position. Its `length`
      argument is ignored; a position outside the table makes the lookup throw. */
  method SuburbsMinsArr(data: seq<int>, length: nat, suburbsData: seq<Suburb>)
    returns (suburbsArr: seq<string>)
    requires forall i :: 0 <= i < |data| ==> 0 <= data[i] < |suburbsData|
    ensures |suburbsArr| == |data|
    ensures forall i :: 0 <= i < |data| ==> suburbsArr[i] == suburbsData[data[i]].text
  {
    suburbsArr := [];
    var i := 0;
    while i < |data|
      invariant 0 <= i <= |data|
      invariant |suburbsArr| == i
      invariant forall k :: 0 <= k < i ==> suburbsArr[k] == suburbsData[data[k]].text
    {
      suburbsArr := suburbsArr + [suburbsData[data[i]].text];
      i := i + 1;
    }
  }

  /** `nearbySuburbsArr`: the names at the chosen positions, read in the FULL table
      although the positions were found in the list of distances to the OTHER records.
      It needs `length` distinct distances; with fewer, a position is -1 and the lookup
      throws. */
  method NearbySuburbsArr(name: string, length: nat, suburbsData: seq<Suburb>, getDistance: GetDistance)
    returns (names: seq<string>)
    requires DistancesDefined(name, suburbsData)
    requires length <= DistinctCount(DistancesToOthers(name, suburbsData, getDistance))
    ensures |names| == length
    ensures exists idx :: (NearestFirstIndices(DistancesToOthers(name, suburbsData, getDistance), length, idx)
      && forall i :: 0 <= i < length ==> 0 <= idx[i] < |suburbsData| && names[i] == suburbsData[idx[i]].text)
  {
    var idx := IndexMinsArr(name, length, suburbsData, getDistance);
    ghost var dists := DistancesToOthers(name, suburbsData, getDistance);
    assert |dists| <= |suburbsData| by {
      var others := OtherSuburbsData(name, suburbsData);
      if GetSuburbFromName(name, suburbsData).Some? {
        assert |others| == |Without(GetSuburbFromName(name, suburbsData).value, suburbsData)|;
      }
    }
    names := SuburbsMinsArr(idx, length, suburbsData);
  }

  /** The list of the other records is the table with the named suburb's position skipped:
      every position from the suburb's on is one behind its position in the table. */
  lemma {:induction false} OthersShift(suburb: Suburb, suburbsData: seq<Suburb>, p: nat)
    requires p < |suburbsData| && suburbsData[p] == suburb
    requires forall k :: 0 <= k < |suburbsData| && k != p ==> suburbsData[k] != suburb
    ensures |Without(suburb, suburbsData)| == |suburbsData| - 1
    ensures forall k {:trigger Without(suburb, suburbsData)[k]} :: 0 <= k < |suburbsData| - 1 ==>
      Without(suburb, suburbsData)[k] == if k < p then suburbsData[k] else suburbsData[k + 1]
  {
    var rest := suburbsData[1..];
    assert suburbsData == [suburbsData[0]] + rest;
    if p == 0 {
      WithoutAbsent(suburb, rest);
      assert Without(suburb, suburbsData) == rest;
    } else {
      OthersShift(suburb, rest, p - 1);
      var others := Without(suburb, suburbsData);
      assert others == [suburbsData[0]] + Without(suburb, rest);
      forall k | 0 <= k < |suburbsData| - 1
        ensures others[k] == if k < p then suburbsData[k] else suburbsData[k + 1]
      {
        if k > 0 {
          assert others[k] == Without(suburb, rest)[k - 1];
        }
      }
    }
  }

  /** A three-record table where the named suburb comes first. */
  function ShiftTable(): seq<Suburb>
  {
    [Suburb("A", 0.0, 0.0), Suburb("B", 1.0, 0.0), Suburb("C", 2.0, 0.0)]
  }

  /** A distance under which "B" is the suburb nearest to "A". */
  function ShiftDistance(): GetDistance
  {
    (a: LatLng, b: LatLng) => if b.latitude == 1.0 then 1 else 2
  }

  /** In `ShiftTable` the records other than "A" are "B" and "C", at distances 1 and 2. */
  lemma ShiftDistances()
    ensures OtherSuburbsData("A", ShiftTable()) == ShiftTable()[1..]
    ensures DistancesToOthers("A", ShiftTable(), ShiftDistance()) == [1, 2]
  {
    var table := ShiftTable();
    assert GetSuburbFromName("A", table) == Some(table[0]);
    OthersShift(table[0], table, 0);
  }

  /** As written, the nearest suburb to "A" in `ShiftTable` is read at position 0 of the
      full table, so `nearbySuburbsArr("A", 1)` lists "A" itself, where the record at that
      position of the list of the other records is "B". */
  lemma NearbyListsItself()
    ensures forall idx :: NearestFirstIndices(DistancesToOthers("A", ShiftTable(), ShiftDistance()), 1, idx) ==>
      idx == [0] && ShiftTable()[idx[0]].text == "A"
    ensures OtherSuburbsData("A", ShiftTable())[0].text == "B"
  {
    ShiftDistances();
    forall idx | NearestFirstIndices([1, 2], 1, idx) ensures idx == [0] {
      NearestOfOneTwo(idx);
    }
  }

  /** Among the distances 1 and 2 the nearest is at position 0. */
  lemma NearestOfOneTwo(idx: seq<int>)
    requires NearestFirstIndices([1, 2], 1, idx)
    ensures idx == [0]
  {
    assert Values([1, 2]) == {1, 2};
    assert idx[0] >= 0;
  }

  /** `nearbySuburbsArr` with the names read in the list of the OTHER records, where the
      positions were found: every name is that of a record other than the suburb, at the
      position of one of the `length` smallest distinct distances, nearest first. */
  method NearbySuburbsArrFixed(name: string, length: nat, suburbsData: seq<Suburb>, getDistance: GetDistance)
    returns (names: seq<string>)
    requires DistancesDefined(name, suburbsData)
    requires length <= DistinctCount(DistancesToOthers(name, suburbsData, getDistance))
    ensures |names| == length
    ensures exists idx :: (NearestFirstIndices(DistancesToOthers(name, suburbsData, getDistance), length, idx)
      && forall i :: 0 <= i < length ==> (0 <= idx[i] < |OtherSuburbsData(name, suburbsData)|
        && names[i] == OtherSuburbsData(name, suburbsData)[idx[i]].text))
    ensures GetSuburbFromName(name, suburbsData).Some? ==> forall i :: 0 <= i < length ==>
      exists other :: other in suburbsData && other != GetSuburbFromName(name, suburbsData).value
        && other.text == names[i]
  {
    var idx := IndexMinsArr(name, length, suburbsData, getDistance);
    var others := OtherSuburbsData(name, suburbsData);
    names := SuburbsMinsArr(idx, length, others);
    forall i | 0 <= i < length
      ensures GetSuburbFromName(name, suburbsData).Some? ==>
        exists other :: other in suburbsData && other != GetSuburbFromName(name, suburbsData).value
          && other.text == names[i]
    {
      if GetSuburbFromName(name, suburbsData).Some? {
        var other := others[idx[i]];
        assert other in others;
      }
    }
  }
}
