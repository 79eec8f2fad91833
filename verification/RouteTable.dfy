/**
 * The route table: an array of routes that grows and shifts, and a hash table
 * whose values point at its slots.
 */
module RouteTable {
  import opened Base
  import opened HashTable

  const DEFAULT_SIZE := 16

  // ---- The routes as a sequence and as a map ----

  predicate DistinctTargets(rs: seq<Route>) {
    forall i, j :: 0 <= i < j < |rs| ==> rs[i].target != rs[j].target
  }

  /** Linear search: the first route to a target, or the number of routes. */
  function FindIndex(rs: seq<Route>, target: u16): (i: nat)
    ensures i <= |rs|
    ensures i < |rs| ==> rs[i].target == target
    ensures forall j :: 0 <= j < i ==> rs[j].target != target
  {
    if rs == [] || rs[0].target == target then 0 else 1 + FindIndex(rs[1..], target)
  }

  function Search(rs: seq<Route>, target: u16): Option<Route> {
    var i := FindIndex(rs, target);
    if i < |rs| then Some(rs[i]) else None
  }

  function CutRoute(rs: seq<Route>, i: nat): seq<Route>
    requires i < |rs|
  {
    rs[..i] + rs[i + 1..]
  }

  function AddRoute(rs: seq<Route>, r: Route): seq<Route> {
    var i := FindIndex(rs, r.target);
    if i < |rs| then rs[i := r] else rs + [r]
  }

  function RemoveRoute(rs: seq<Route>, target: u16): seq<Route> {
    var i := FindIndex(rs, target);
    if i < |rs| then CutRoute(rs, i) else rs
  }

  /** What the table means: one route per target. */
  ghost predicate Means(rs: seq<Route>, m: map<u16, Route>) {
    && (forall i :: 0 <= i < |rs| ==> rs[i].target in m && m[rs[i].target] == rs[i])
    && (forall t :: t in m ==> exists i :: 0 <= i < |rs| && rs[i].target == t)
  }

  lemma SearchIsLookup(rs: seq<Route>, m: map<u16, Route>, target: u16)
    requires Means(rs, m)
    ensures Search(rs, target) == if target in m then Some(m[target]) else None
  {
  }

  lemma CutRouteIs(rs: seq<Route>, i: nat)
    requires i < |rs|
    ensures |CutRoute(rs, i)| == |rs| - 1
    ensures forall k :: 0 <= k < |rs| - 1 ==> CutRoute(rs, i)[k] == rs[if k < i then k else k + 1]
  {
  }

  /** Adding writes the map entry of its target, the last write winning; removing deletes it. */
  lemma TableRefinesMap(rs: seq<Route>, m: map<u16, Route>, r: Route, target: u16)
    requires DistinctTargets(rs) && Means(rs, m)
    ensures DistinctTargets(AddRoute(rs, r)) && Means(AddRoute(rs, r), m[r.target := r])
    ensures DistinctTargets(RemoveRoute(rs, target)) && Means(RemoveRoute(rs, target), m - {target})
  {
    AddMeans(rs, m, r);
    RemoveMeans(rs, m, target);
  }

  lemma AddMeans(rs: seq<Route>, m: map<u16, Route>, r: Route)
    requires DistinctTargets(rs) && Means(rs, m)
    ensures DistinctTargets(AddRoute(rs, r)) && Means(AddRoute(rs, r), m[r.target := r])
  {
    var now := AddRoute(rs, r);
    var i := FindIndex(rs, r.target);
    assert now[i] == r && |now| == (if i < |rs| then |rs| else |rs| + 1);
    assert forall j :: 0 <= j < |rs| && j != i ==> now[j] == rs[j];
    hide AddRoute, FindIndex;
    var written := m[r.target := r];
    forall t | t in written ensures exists k :: 0 <= k < |now| && now[k].target == t {
      if t == r.target {
        assert now[i].target == t;
      } else {
        var k :| 0 <= k < |rs| && rs[k].target == t;
        assert now[k].target == t;
      }
    }
  }

  lemma RemoveMeans(rs: seq<Route>, m: map<u16, Route>, target: u16)
    requires DistinctTargets(rs) && Means(rs, m)
    ensures DistinctTargets(RemoveRoute(rs, target)) && Means(RemoveRoute(rs, target), m - {target})
  {
    var i := FindIndex(rs, target);
    if i < |rs| {
      CutRouteIs(rs, i);
      var cs := CutRoute(rs, i);
      hide CutRoute, FindIndex;
      forall t | t in m - {target} ensures exists k :: 0 <= k < |cs| && cs[k].target == t {
        var k :| 0 <= k < |rs| && rs[k].target == t;
        assert cs[if k < i then k else k - 1].target == t;
      }
    } else {
      assert target !in m;
      assert m - {target} == m;
    }
  }

  /** A new route comes last, a known target keeps its place, and a removal leaves the others in order. */
  lemma RoutesKeepOrder(rs: seq<Route>, r: Route, i: nat)
    requires DistinctTargets(rs)
    ensures (forall j :: 0 <= j < |rs| ==> rs[j].target != r.target) ==> AddRoute(rs, r) == rs + [r] && RemoveRoute(rs, r.target) == rs
    ensures i < |rs| && rs[i].target == r.target ==> AddRoute(rs, r) == rs[i := r] && RemoveRoute(rs, r.target) == rs[..i] + rs[i + 1..]
  {
    var k := FindIndex(rs, r.target);
    assert k < |rs| ==> rs[k].target == r.target;
  }

  // ---- The table in memory ----

  /** Every target of `rs` is indexed at its slot of `arr`, and no other target is. */
  ghost predicate Points(rs: seq<Route>, arr: array<Route>, m: map<u16, RoutePtr>) {
    && (forall i :: 0 <= i < |rs| ==> rs[i].target in m && m[rs[i].target] == RoutePtr(arr, i))
    && (forall t :: t in m ==> exists i :: 0 <= i < |rs| && rs[i].target == t)
  }

  /** The index knows exactly the targets of `rs`. */
  ghost predicate KeysMatch(rs: seq<Route>, m: map<u16, RoutePtr>) {
    && (forall i :: 0 <= i < |rs| ==> rs[i].target in m)
    && (forall t :: t in m ==> exists i :: 0 <= i < |rs| && rs[i].target == t)
  }

  /** The first `n` routes of `rs` are indexed at their slots of `arr`. */
  ghost predicate PointsUpTo(rs: seq<Route>, arr: array<Route>, n: nat, m: map<u16, RoutePtr>) {
    n <= |rs| && forall i :: 0 <= i < n ==> rs[i].target in m && m[rs[i].target] == RoutePtr(arr, i)
  }

  lemma Repointed(rs: seq<Route>, arr: array<Route>, i: nat, before: map<u16, RoutePtr>, now: map<u16, RoutePtr>)
    requires i < |rs| && DistinctTargets(rs) && KeysMatch(rs, before) && PointsUpTo(rs, arr, i, before)
    requires now == before[rs[i].target := RoutePtr(arr, i)]
    ensures KeysMatch(rs, now) && PointsUpTo(rs, arr, i + 1, now)
  {
  }

  lemma StillPoints(rs: seq<Route>, i: nat, r: Route, arr: array<Route>, m: map<u16, RoutePtr>)
    requires i < |rs| && rs[i].target == r.target && DistinctTargets(rs) && Points(rs, arr, m)
    ensures DistinctTargets(rs[i := r]) && Points(rs[i := r], arr, m)
  {
    var now := rs[i := r];
    assert forall j :: 0 <= j < |rs| ==> now[j].target == rs[j].target;
    forall t | t in m ensures exists j :: 0 <= j < |now| && now[j].target == t {
      var j :| 0 <= j < |rs| && rs[j].target == t;
      assert now[j].target == t;
    }
  }

  lemma Appended(rs: seq<Route>, r: Route, arr: array<Route>, m: map<u16, RoutePtr>)
    requires DistinctTargets(rs) && (forall j :: 0 <= j < |rs| ==> rs[j].target != r.target) && Points(rs, arr, m)
    ensures DistinctTargets(rs + [r]) && Points(rs + [r], arr, m[r.target := RoutePtr(arr, |rs|)])
  {
    var now, more := rs + [r], m[r.target := RoutePtr(arr, |rs|)];
    forall t | t in more ensures exists j :: 0 <= j < |now| && now[j].target == t {
      if t == r.target {
        assert now[|rs|].target == t;
      } else {
        var j :| 0 <= j < |rs| && rs[j].target == t;
        assert now[j].target == t;
      }
    }
  }

  /** After a removal, the routes before the gap are still indexed right, and the keys are those of the rest. */
  lemma RestPoints(rs: seq<Route>, i: nat, arr: array<Route>, m: map<u16, RoutePtr>)
    requires i < |rs| && DistinctTargets(rs) && Points(rs, arr, m)
    ensures var cs, less := CutRoute(rs, i), m - {rs[i].target};
      DistinctTargets(cs) && KeysMatch(cs, less) && PointsUpTo(cs, arr, i, less)
  {
    CutRouteIs(rs, i);
    var cs, less := CutRoute(rs, i), m - {rs[i].target};
    hide CutRoute;
    forall t | t in less ensures exists k :: 0 <= k < |cs| && cs[k].target == t {
      var k :| 0 <= k < |rs| && rs[k].target == t;
      assert cs[if k < i then k else k - 1].target == t;
    }
  }

  class Routes {
    const index: Table
    var routes: array<Route>
    var routeCount: nat

    ghost function View(): seq<Route>
      requires routeCount <= routes.Length
      reads this, routes
    {
      routes[..routeCount]
    }

    ghost predicate Valid()
      reads this, routes, index, index.buckets, index.Objects()
    {
      && index.Valid() && routeCount <= routes.Length
      && DistinctTargets(View()) && Points(View(), routes, index.contents)
    }

    constructor (capacity: nat)
      ensures Valid() && View() == [] && routes.Length == capacity
    {
      index := new Table(DEFAULT_SIZE);
      routes := new Route[capacity](_ => Route(0, 0, 0, 0, 0));
      routeCount := 0;
    }

    method FindSlot(target: u16) returns (i: nat)
      requires Valid()
      ensures Valid() && View() == old(View()) && i == FindIndex(View(), target)
    {
      i := 0;
      ghost var rs := View();
      assert rs[0..] == rs;
      while i < routeCount
        invariant 0 <= i <= routeCount && FindIndex(rs, target) == i + FindIndex(rs[i..], target)
      {
        assert rs[i..][0] == routes[i] && rs[i..][1..] == rs[i + 1..];
        if routes[i].target == target {
          return;
        }
        i := i + 1;
      }
    }

    /** The indexed lookup answers what a linear search would. */
    method Lookup(target: u16) returns (route: Option<Route>)
      requires Valid()
      ensures route == Search(View(), target)
    {
      ghost var rs := View();
      PointsAt(target);

      var p := index.Lookup(target);
      if p.None? {
        return None;
      }
      return Some(p.value.routes[p.value.slot]);
    }

    lemma PointsAt(target: u16)
      requires Valid()
      ensures target in index.contents <==> FindIndex(View(), target) < |View()|
      ensures target in index.contents ==> index.contents[target] == RoutePtr(routes, FindIndex(View(), target))
    {
      var rs := View();
      var i := FindIndex(rs, target);
      if target in index.contents {
        var k :| 0 <= k < |rs| && rs[k].target == target;
      }
    }

    /** Re-inserts routes from `first` on with their new slots; their entries exist, so nothing is allocated. */
    method Repoint(arr: array<Route>, first: nat, count: nat)
      requires index.Valid() && first <= count <= arr.Length && DistinctTargets(arr[..count])
      requires KeysMatch(arr[..count], index.contents) && PointsUpTo(arr[..count], arr, first, index.contents)
      modifies index, index.buckets, index.Objects()
      ensures index.Valid() && arr[..count] == old(arr[..count]) && Points(arr[..count], arr, index.contents)
      ensures forall e :: e in index.Objects() && e !in old(index.Objects()) ==> fresh(e)
    {
      ghost var rs := arr[..count];
      hide Table.Valid;
      var i := first;
      while i < count
        invariant first <= i <= count && index.Valid() && arr[..count] == rs
        invariant KeysMatch(rs, index.contents) && PointsUpTo(rs, arr, i, index.contents)
        invariant forall e :: e in index.Objects() && e !in old(index.Objects()) ==> fresh(e)
      {
        assert arr[i] == rs[i];
        ghost var before := index.contents;
        var status := index.Insert(arr[i].target, RoutePtr(arr, i), false);
        Repointed(rs, arr, i, before, index.contents);
        i := i + 1;
      }
    }

    /** Doubles the array and points the index at the new one. */
    method Grow(allocOk: bool) returns (status: Status)
      requires Valid()
      modifies this`routes, index, index.buckets, index.Objects()
      ensures Valid() && View() == old(View())
      ensures status == if allocOk then Ok else NoMemory
      ensures status.Ok? ==> routes.Length == if old(routes.Length) == 0 then 16 else 2 * old(routes.Length)
      ensures if status.Ok? then fresh(routes) else routes == old(routes)
      ensures forall e :: e in index.Objects() && e !in old(index.Objects()) ==> fresh(e)
    {
      if !allocOk {
        return NoMemory;
      }
      var capacity := if routes.Length == 0 then DEFAULT_SIZE else 2 * routes.Length;
      var bigger := Copied(capacity);
      Repoint(bigger, 0, routeCount);
      label repointed:
      routes := bigger;
      index.Unmoved@repointed();
      return Ok;
    }

    method Copied(capacity: nat) returns (bigger: array<Route>)
      requires Valid() && capacity >= routeCount
      ensures Valid() && fresh(bigger) && bigger.Length == capacity && bigger[..routeCount] == View() == old(View())
      ensures KeysMatch(View(), index.contents)
    {
      bigger := new Route[capacity](_ => Route(0, 0, 0, 0, 0));
      var i := 0;
      while i < routeCount
        invariant 0 <= i <= routeCount && bigger[..i] == routes[..i]
      {
        bigger[i] := routes[i];
        i := i + 1;
      }
      index.Unmoved();
    }

    /** Writes a slot and leaves the index alone. */
    method WriteSlot(i: nat, r: Route)
      requires index.Valid() && routeCount <= routes.Length && i < routes.Length
      modifies routes
      ensures index.Valid() && index.contents == old(index.contents) && index.Objects() == old(index.Objects())
      ensures routes[..] == old(routes[..])[i := r]
      ensures View() == if i < routeCount then old(View())[i := r] else old(View())
    {
      routes[i] := r;
      index.Unmoved();
    }

    method SetCount(n: nat)
      requires index.Valid() && n <= routes.Length
      modifies this`routeCount
      ensures index.Valid() && routeCount == n && index.contents == old(index.contents) && index.Objects() == old(index.Objects())
    {
      routeCount := n;
      index.Unmoved();
    }

    /** Adds a route, or overwrites the one to the same target. */
    method Add(r: Route, phyOk: bool, growOk: bool, entryOk: bool) returns (status: Status)
      requires Valid()
      modifies this, routes, index, index.buckets, index.Objects()
      ensures Valid()
      ensures status ==
        if !phyOk then InvalidParam
        else if FindIndex(old(View()), r.target) < old(routeCount) then Ok
        else if old(routeCount) >= old(routes.Length) && !growOk then NoMemory
        else if !entryOk then NoMemory else Ok
      ensures View() == if status.Ok? then AddRoute(old(View()), r) else old(View())
      ensures routes == old(routes) || fresh(routes)
      ensures forall e :: e in index.Objects() && e !in old(index.Objects()) ==> fresh(e)
    {
      hide Table.Valid, Table.Objects, DistinctTargets, Points, FindIndex;
      if !phyOk {
        return InvalidParam;
      }
      var i := FindSlot(r.target);
      if i < routeCount {
        Overwrite(i, r);
        return Ok;
      }
      if routeCount >= routes.Length {
        status := Grow(growOk);
        if !status.Ok? {
          return;
        }
      }
      status := Append(r, entryOk);
    }

    method Overwrite(i: nat, r: Route)
      requires Valid() && i < routeCount && routes[i].target == r.target && i == FindIndex(View(), r.target)
      modifies routes, index, index.buckets, index.Objects()
      ensures Valid() && View() == AddRoute(old(View()), r)
      ensures forall e :: e in index.Objects() && e !in old(index.Objects()) ==> fresh(e)
    {
      ghost var rs := View();
      SlotIndexed(i);
      WriteSlot(i, r);
      ghost var before := index.contents;
      var status := index.Insert(r.target, RoutePtr(routes, i), true);
      assert index.contents == before;
      StillPoints(rs, i, r, routes, index.contents);
    }

    lemma SlotIndexed(i: nat)
      requires Valid() && i < routeCount
      ensures routes[i].target in index.contents && index.contents[routes[i].target] == RoutePtr(routes, i)
    {
      assert View()[i] == routes[i];
    }

    method Append(r: Route, entryOk: bool) returns (status: Status)
      requires Valid() && routeCount < routes.Length && FindIndex(View(), r.target) == |View()|
      modifies this`routeCount, routes, index, index.buckets, index.Objects()
      ensures Valid() && status == if entryOk then Ok else NoMemory
      ensures View() == if status.Ok? then old(View()) + [r] else old(View())
      ensures forall e :: e in index.Objects() && e !in old(index.Objects()) ==> fresh(e)
    {
      hide Table.Valid, Table.Objects, FindIndex, DistinctTargets, Points;
      ghost var rs, pairs := View(), index.contents;
      FreshTarget(rs, r.target);
      Appended(rs, r, routes, pairs);
      NotIndexed(r.target);
      status := IndexNew(r, entryOk);
      if status.Ok? {
        SetCount(routeCount + 1);
        assert View() == rs + [r];
      }
    }

    /** Fills the next slot and indexes it; the slot is not counted yet. */
    method IndexNew(r: Route, entryOk: bool) returns (status: Status)
      requires Valid() && routeCount < routes.Length && r.target !in index.contents
      modifies routes, index, index.buckets, index.Objects()
      ensures index.Valid() && status == if entryOk then Ok else NoMemory
      ensures routes[..] == old(routes[..])[routeCount := r] && View() == old(View())
      ensures index.contents ==
        if status.Ok? then old(index.contents)[r.target := RoutePtr(routes, routeCount)] else old(index.contents)
      ensures forall e :: e in index.Objects() && e !in old(index.Objects()) ==> fresh(e)
    {
      hide Table.Valid, Table.Objects, DistinctTargets, Points;
      WriteSlot(routeCount, r);
      status := index.Insert(r.target, RoutePtr(routes, routeCount), entryOk);
    }

    lemma NotIndexed(target: u16)
      requires Valid() && forall j :: 0 <= j < routeCount ==> View()[j].target != target
      ensures target !in index.contents
    {
    }

    lemma FreshTarget(rs: seq<Route>, target: u16)
      requires FindIndex(rs, target) == |rs|
      ensures forall j :: 0 <= j < |rs| ==> rs[j].target != target
    {
    }

    /** Removes a route: the later ones move down one slot and are indexed again. */
    method Remove(target: u16) returns (status: Status)
      requires Valid()
      modifies this, routes, index, index.buckets, index.Objects()
      ensures Valid() && routes == old(routes)
      ensures status == if FindIndex(old(View()), target) < old(routeCount) then Ok else RouteNotFound
      ensures View() == RemoveRoute(old(View()), target)
      ensures forall e :: e in index.Objects() && e !in old(index.Objects()) ==> fresh(e)
    {
      var i := FindSlot(target);
      if i == routeCount {
        return RouteNotFound;
      }
      hide Valid, View, Table.Objects, CutRoute;
      RemoveSlot(i);
      return Ok;
    }

    method RemoveSlot(i: nat)
      requires Valid() && i < routeCount
      modifies this, routes, index, index.buckets, index.Objects()
      ensures Valid() && routes == old(routes) && View() == CutRoute(old(View()), i)
      ensures forall e :: e in index.Objects() && e !in old(index.Objects()) ==> fresh(e)
    {
      hide Table.Valid, Table.Objects, DistinctTargets, KeysMatch, PointsUpTo, CutRoute, Points;
      Unindex(i);
      CloseGap(i);
      SetCount(routeCount - 1);
    }

    /** Takes the entry of slot `i` out of the index. */
    method Unindex(i: nat)
      requires Valid() && i < routeCount
      modifies index, index.buckets, index.Objects()
      ensures index.Valid() && View() == old(View())
      ensures var cs := CutRoute(View(), i);
        DistinctTargets(cs) && KeysMatch(cs, index.contents) && PointsUpTo(cs, routes, i, index.contents)
      ensures forall e :: e in index.Objects() && e !in old(index.Objects()) ==> fresh(e)
    {
      hide Table.Valid, Table.Objects, DistinctTargets, KeysMatch, PointsUpTo, CutRoute, Points;
      RestPoints(View(), i, routes, index.contents);
      var target := routes[i].target;
      var status := index.Remove(target);
    }

    /** Moves the routes behind slot `i` down and indexes them again. */
    method CloseGap(i: nat)
      requires index.Valid() && i < routeCount <= routes.Length
      requires var cs := CutRoute(View(), i);
        DistinctTargets(cs) && KeysMatch(cs, index.contents) && PointsUpTo(cs, routes, i, index.contents)
      modifies routes, index, index.buckets, index.Objects()
      ensures index.Valid() && routes[..routeCount - 1] == CutRoute(old(View()), i)
      ensures Points(routes[..routeCount - 1], routes, index.contents)
      ensures forall e :: e in index.Objects() && e !in old(index.Objects()) ==> fresh(e)
    {
      CutRouteIs(View(), i);
      hide Table.Valid, Table.Objects, DistinctTargets, KeysMatch, PointsUpTo, CutRoute, Points;
      ShiftDown(i);
      Repoint(routes, i, routeCount - 1);
    }

    method ShiftDown(i: nat)
      requires index.Valid() && i < routeCount <= routes.Length
      modifies routes
      ensures index.Valid() && index.contents == old(index.contents) && index.Objects() == old(index.Objects())
      ensures routes[..routeCount - 1] == CutRoute(old(View()), i)
    {
      ghost var rs := View();
      var j := i;
      while j < routeCount - 1
        invariant i <= j < routeCount
        invariant forall k :: 0 <= k < i ==> routes[k] == rs[k]
        invariant forall k :: i <= k < j ==> routes[k] == rs[k + 1]
        invariant forall k :: j <= k < routeCount ==> routes[k] == rs[k]
      {
        routes[j] := routes[j + 1];
        j := j + 1;
      }
      CutRouteIs(rs, i);
      index.Unmoved();
    }

    /** Changes the metric through the indexed pointer. */
    method UpdateMetric(target: u16, metric: u8) returns (status: Status)
      requires Valid()
      modifies routes
      ensures Valid()
      ensures status == if Search(old(View()), target).Some? then Ok else RouteNotFound
      ensures View() == if status.Ok? then AddRoute(old(View()), Search(old(View()), target).value.(metric := metric)) else old(View())
    {
      ghost var rs := View();
      PointsAt(target);
      var p := FindEntry(target);
      if p.None? {
        return RouteNotFound;
      }
      var slot := p.value.slot;
      WriteSlot(slot, routes[slot].(metric := metric));
      StillPoints(rs, slot, rs[slot].(metric := metric), routes, index.contents);
      return Ok;
    }

    method FindEntry(target: u16) returns (p: Option<RoutePtr>)
      requires Valid()
      ensures Valid() && View() == old(View())
      ensures p == if target in index.contents then Some(index.contents[target]) else None
    {
      p := index.Lookup(target);
    }

    method Clear()
      requires Valid()
      modifies this`routeCount, index, index.buckets
      ensures Valid() && View() == []
    {
      index.Clear();
      SetCount(0);
    }
  }
}
