/** `nearest_neighbor` of delivery_logic.py: a greedy route over a truck's packages. */
module Routing {
  import opened Wrappers
  import opened Address
  import opened Distances
  import Registry
  import Trucks

  /** The location index of a package's destination, when the package and its address resolve. */
  function Target(reg: map<string, Registry.Package>, index: map<string, nat>, id: string): (r: Option<nat>)
    ensures r.Some? <==> id in reg && Normalize(reg[id].address) in index
    ensures r.Some? ==> r.value == index[Normalize(reg[id].address)]
  {
    if id in reg then GetAddressIndex(index, reg[id].address) else None
  }

  /** The distance from the cursor to a package's destination; None when the package, its address or the distance is unknown. */
  function DistanceTo(reg: map<string, Registry.Package>, index: map<string, nat>, d: Matrix, cursor: nat, id: string): (r: Option<real>)
    requires Covers(index, d) && cursor < |d|
    ensures r.Some? ==> Target(reg, index, id).Some? && Target(reg, index, id).value < |d|
  {
    match Target(reg, index, id)
    case None => None
    case Some(k) => d[cursor][k]
  }

  /** The package picked so far: its position in the work list and its distance. */
  datatype Choice = Choice(pos: nat, distance: real)

  /** The scan over the work list: the first candidate with the strictly smallest distance. */
  function Scan(work: seq<string>, reg: map<string, Registry.Package>, index: map<string, nat>, d: Matrix, cursor: nat): (r: Option<Choice>)
    requires Covers(index, d) && cursor < |d|
    ensures r.Some? ==> r.value.pos < |work| && DistanceTo(reg, index, d, cursor, work[r.value.pos]) == Some(r.value.distance)
    decreases |work|
  {
    if work == [] then None
    else
      var prev := Scan(work[..|work| - 1], reg, index, d, cursor);
      var last := DistanceTo(reg, index, d, cursor, work[|work| - 1]);
      if last.None? then prev
      else if prev.None? || last.value < prev.value.distance then Some(Choice(|work| - 1, last.value))
      else prev
  }

  /** Whether position j of the work list is a candidate. */
  predicate Candidate(work: seq<string>, reg: map<string, Registry.Package>, index: map<string, nat>, d: Matrix, cursor: nat, j: nat)
    requires Covers(index, d) && cursor < |d| && j < |work|
  {
    DistanceTo(reg, index, d, cursor, work[j]).Some?
  }

  /** The scan finds nothing exactly when no package of the work list is a candidate. */
  lemma {:induction false} ScanFindsCandidate(work: seq<string>, reg: map<string, Registry.Package>, index: map<string, nat>, d: Matrix, cursor: nat)
    requires Covers(index, d) && cursor < |d|
    ensures Scan(work, reg, index, d, cursor).None? <==> forall j :: 0 <= j < |work| ==> !Candidate(work, reg, index, d, cursor, j)
    decreases |work|
  {
    if work != [] {
      var n := |work| - 1;
      ScanFindsCandidate(work[..n], reg, index, d, cursor);
      PrefixAgrees(work, reg, index, d, cursor);
      if DistanceTo(reg, index, d, cursor, work[n]).Some? {
        assert Candidate(work, reg, index, d, cursor, n);
      }
    }
  }

  /**
   * The scan's pick has a distance no larger than any candidate's and strictly smaller
   * than that of any candidate before it: the first package at the smallest distance.
   */
  lemma {:induction false} ScanPicksFirstNearest(work: seq<string>, reg: map<string, Registry.Package>, index: map<string, nat>, d: Matrix, cursor: nat)
    requires Covers(index, d) && cursor < |d|
    ensures Scan(work, reg, index, d, cursor).Some? ==>
      var c := Scan(work, reg, index, d, cursor).value;
      forall j :: 0 <= j < |work| && Candidate(work, reg, index, d, cursor, j) ==>
        c.distance <= DistanceTo(reg, index, d, cursor, work[j]).value
        && (j < c.pos ==> c.distance < DistanceTo(reg, index, d, cursor, work[j]).value)
    decreases |work|
  {
    if work != [] {
      var n := |work| - 1;
      var init := work[..n];
      ScanPicksFirstNearest(init, reg, index, d, cursor);
      ScanFindsCandidate(init, reg, index, d, cursor);
      PrefixAgrees(work, reg, index, d, cursor);
      var prev := Scan(init, reg, index, d, cursor);
      var pick := Scan(work, reg, index, d, cursor);
      if pick.Some? {
        var c := pick.value;
        forall j | 0 <= j < |work| && Candidate(work, reg, index, d, cursor, j)
          ensures c.distance <= DistanceTo(reg, index, d, cursor, work[j]).value
          ensures j < c.pos ==> c.distance < DistanceTo(reg, index, d, cursor, work[j]).value
        {
          if j < n {
            assert Candidate(init, reg, index, d, cursor, j);
            var dj := DistanceTo(reg, index, d, cursor, work[j]).value;
            assert prev.Some? && prev.value.distance <= dj && (j < prev.value.pos ==> prev.value.distance < dj);
          }
        }
      }
    }
  }

  /** Dropping the last package changes no other package's distance or candidacy. */
  lemma PrefixAgrees(work: seq<string>, reg: map<string, Registry.Package>, index: map<string, nat>, d: Matrix, cursor: nat)
    requires Covers(index, d) && cursor < |d| && work != []
    ensures forall j :: 0 <= j < |work| - 1 ==>
      && DistanceTo(reg, index, d, cursor, work[..|work| - 1][j]) == DistanceTo(reg, index, d, cursor, work[j])
      && Candidate(work[..|work| - 1], reg, index, d, cursor, j) == Candidate(work, reg, index, d, cursor, j)
  {
    var init := work[..|work| - 1];
    forall j | 0 <= j < |work| - 1
      ensures DistanceTo(reg, index, d, cursor, init[j]) == DistanceTo(reg, index, d, cursor, work[j])
      ensures Candidate(init, reg, index, d, cursor, j) == Candidate(work, reg, index, d, cursor, j)
    {
      assert init[j] == work[j];
    }
  }

  /** The position of the first occurrence of x. */
  function FirstIndex(s: seq<string>, x: string): (k: nat)
    requires x in s
    ensures k < |s| && s[k] == x && x !in s[..k]
  {
    if s[0] == x then 0
    else
      var k := FirstIndex(s[1..], x);
      assert s[..k + 1] == [s[0]] + s[1..][..k];
      k + 1
  }

  /** `undelivered.remove(x)`: drops the first occurrence. */
  function RemoveFirst(s: seq<string>, x: string): (r: seq<string>)
    requires x in s
    ensures |r| == |s| - 1
  {
    var k := FirstIndex(s, x);
    s[..k] + s[k + 1..]
  }

  lemma RemoveFirstMultiset(s: seq<string>, x: string)
    requires x in s
    ensures multiset(RemoveFirst(s, x)) == multiset(s) - multiset{x}
    ensures forall y :: y in RemoveFirst(s, x) ==> y in s
  {
    var k := FirstIndex(s, x);
    assert s == s[..k] + [x] + s[k + 1..];
    forall y | y in RemoveFirst(s, x) ensures y in s {
      assert y in multiset(RemoveFirst(s, x));
    }
  }

  /** The route nearest_neighbor builds from a work list and a cursor. */
  function Route(work: seq<string>, reg: map<string, Registry.Package>, index: map<string, nat>, d: Matrix, cursor: nat): seq<string>
    requires Covers(index, d) && cursor < |d|
    decreases |work|
  {
    match Scan(work, reg, index, d, cursor)
    case None => []
    case Some(c) =>
      var id := work[c.pos];
      [id] + Route(RemoveFirst(work, id), reg, index, d, Target(reg, index, id).value)
  }

  /** The hub's location index, from which every route starts. */
  function HubIndex(index: map<string, nat>): Option<nat> {
    GetAddressIndex(index, Hub)
  }

  /**
   * The inner loop of `nearest_neighbor`: the first package of the work list at
   * the strictly smallest known distance from the cursor.
   */
  method ScanNearest(undelivered: seq<string>, table: Registry.PackageTable, index: map<string, nat>, d: Matrix, current: nat)
    returns (nearest: Option<Choice>)
    requires table.Valid() && Covers(index, d) && current < |d|
    ensures nearest == Scan(undelivered, table.contents, index, d, current)
  {
    // `nearest` and `min_distance` of the source; None stands for no package yet and +inf.
    nearest := None;
    var i := 0;
    assert undelivered[..0] == [];
    while i < |undelivered|
      invariant 0 <= i <= |undelivered|
      invariant nearest == Scan(undelivered[..i], table.contents, index, d, current)
    {
      ghost var known := DistanceTo(table.contents, index, d, current, undelivered[i]);
      var p := table.Lookup(undelivered[i]);
      if p.Some? {
        var target := GetAddressIndex(index, p.value.address);
        if target.Some? {
          var distance := d[current][target.value];
          assert distance == known;
          if distance.Some? && (nearest.None? || distance.value < nearest.value.distance) {
            nearest := Some(Choice(i, distance.value));
          }
        } else {
          assert known.None?;
        }
      } else {
        assert known.None?;
      }
      ScanStep(undelivered, i, table.contents, index, d, current);
      i := i + 1;
    }
    assert undelivered[..i] == undelivered;
  }

  /** `nearest_neighbor`: works on a copy of the truck's package list and changes nothing else. */
  method NearestNeighbor(truck: Trucks.Truck, table: Registry.PackageTable, index: map<string, nat>, d: Matrix)
    returns (route: seq<string>)
    requires table.Valid() && Covers(index, d) && HubIndex(index).Some?
    ensures route == Route(truck.packages, table.contents, index, d, HubIndex(index).value)
  {
    var undelivered := truck.packages;
    route := [];
    var current: nat := GetAddressIndex(index, Hub).value;
    ghost var hub: nat := current;
    while |undelivered| > 0
      invariant current < |d|
      invariant route + Route(undelivered, table.contents, index, d, current) == Route(truck.packages, table.contents, index, d, hub)
      decreases |undelivered|
    {
      var nearest := ScanNearest(undelivered, table, index, d, current);
      RouteUnfold(undelivered, table.contents, index, d, current);
      if nearest.None? {
        break;
      }
      var chosen := undelivered[nearest.value.pos];
      RouteAdvance(undelivered, table.contents, index, d, current, route);
      route := route + [chosen];
      var p := table.Lookup(chosen);
      current := GetAddressIndex(index, p.value.address).value;
      assert current == Target(table.contents, index, chosen).value;
      undelivered := RemoveFirst(undelivered, chosen);
    }
  }

  /** One iteration of `nearest_neighbor`: the pick moves from the work list to the route. */
  lemma RouteAdvance(work: seq<string>, reg: map<string, Registry.Package>, index: map<string, nat>, d: Matrix,
                     cursor: nat, done: seq<string>)
    requires Covers(index, d) && cursor < |d|
    requires Scan(work, reg, index, d, cursor).Some?
    ensures var id := work[Scan(work, reg, index, d, cursor).value.pos];
            && Target(reg, index, id).Some? && Target(reg, index, id).value < |d|
            && (done + [id]) + Route(RemoveFirst(work, id), reg, index, d, Target(reg, index, id).value)
               == done + Route(work, reg, index, d, cursor)
  {
    RouteUnfold(work, reg, index, d, cursor);
  }

  /** One iteration of the scan. */
  lemma ScanStep(work: seq<string>, i: nat, reg: map<string, Registry.Package>, index: map<string, nat>, d: Matrix, cursor: nat)
    requires Covers(index, d) && cursor < |d| && i < |work|
    ensures var prev := Scan(work[..i], reg, index, d, cursor);
            var known := DistanceTo(reg, index, d, cursor, work[i]);
            Scan(work[..i + 1], reg, index, d, cursor)
            == if known.Some? && (prev.None? || known.value < prev.value.distance) then Some(Choice(i, known.value)) else prev
  {
    assert work[..i + 1][..i] == work[..i];
  }

  // ---------------------------------------------------------------------
  // Properties of the route

  /** One step of Route, spelled out. */
  lemma RouteUnfold(work: seq<string>, reg: map<string, Registry.Package>, index: map<string, nat>, d: Matrix, cursor: nat)
    requires Covers(index, d) && cursor < |d|
    ensures Scan(work, reg, index, d, cursor).None? ==> Route(work, reg, index, d, cursor) == []
    ensures Scan(work, reg, index, d, cursor).Some? ==>
      var id := work[Scan(work, reg, index, d, cursor).value.pos];
      && Target(reg, index, id).Some? && Target(reg, index, id).value < |d|
      && Route(work, reg, index, d, cursor) == [id] + Route(RemoveFirst(work, id), reg, index, d, Target(reg, index, id).value)
  {
  }

  /** The route takes its packages from the work list: no more of each than the list holds. */
  lemma {:induction false} RouteFromWork(work: seq<string>, reg: map<string, Registry.Package>, index: map<string, nat>, d: Matrix, cursor: nat)
    requires Covers(index, d) && cursor < |d|
    ensures multiset(Route(work, reg, index, d, cursor)) <= multiset(work)
    ensures |Route(work, reg, index, d, cursor)| <= |work|
    ensures forall x :: x in Route(work, reg, index, d, cursor) ==> x in work
    decreases |work|
  {
    RouteUnfold(work, reg, index, d, cursor);
    var route := Route(work, reg, index, d, cursor);
    var pick := Scan(work, reg, index, d, cursor);
    if pick.Some? {
      var id := work[pick.value.pos];
      var next := Target(reg, index, id).value;
      var rest := RemoveFirst(work, id);
      RemoveFirstMultiset(work, id);
      RouteFromWork(rest, reg, index, d, next);
      var tail := Route(rest, reg, index, d, next);
      assert route == [id] + tail;
      assert multiset(route) == multiset{id} + multiset(tail);
      assert id in multiset(work);
      assert multiset(route) <= multiset(work);
      assert |multiset(route)| == |route| && |multiset(work)| == |work|;
    }
    forall x | x in route ensures x in work {
      assert x in multiset(route);
    }
  }

  /** Every routed package resolves to a location index: packages whose lookup or address fails never appear. */
  lemma {:induction false} RouteOnlyResolvable(work: seq<string>, reg: map<string, Registry.Package>, index: map<string, nat>, d: Matrix, cursor: nat)
    requires Covers(index, d) && cursor < |d|
    ensures forall x :: x in Route(work, reg, index, d, cursor) ==> Target(reg, index, x).Some?
    decreases |work|
  {
    RouteUnfold(work, reg, index, d, cursor);
    var pick := Scan(work, reg, index, d, cursor);
    if pick.Some? {
      var id := work[pick.value.pos];
      var next := Target(reg, index, id).value;
      RouteOnlyResolvable(RemoveFirst(work, id), reg, index, d, next);
    }
  }

  /** No value occurs twice. */
  predicate Distinct<T(==)>(s: seq<T>) {
    forall i, j :: 0 <= i < j < |s| ==> s[i] != s[j]
  }

  /** Entries before the removed one stay in place; those after it move down by one. */
  lemma RemoveFirstShifts(s: seq<string>, x: string)
    requires x in s
    ensures forall a :: 0 <= a < |RemoveFirst(s, x)| ==>
              RemoveFirst(s, x)[a] == if a < FirstIndex(s, x) then s[a] else s[a + 1]
  {
    var k := FirstIndex(s, x);
    var r := RemoveFirst(s, x);
    assert r == s[..k] + s[k + 1..];
    forall a | 0 <= a < |r| ensures r[a] == if a < k then s[a] else s[a + 1] {
      if a < k {
        assert r[a] == s[..k][a];
      } else {
        assert r[a] == s[k + 1..][a - k];
      }
    }
  }

  /** Removing an element of a duplicate-free list leaves a duplicate-free list without it. */
  lemma RemoveFirstDistinct(s: seq<string>, x: string)
    requires x in s && Distinct(s)
    ensures Distinct(RemoveFirst(s, x)) && x !in RemoveFirst(s, x)
  {
    var k := FirstIndex(s, x);
    var r := RemoveFirst(s, x);
    RemoveFirstShifts(s, x);
    forall a, b | 0 <= a < b < |r| ensures r[a] != r[b] {
      var a', b' := if a < k then a else a + 1, if b < k then b else b + 1;
      assert r[a] == s[a'] && r[b] == s[b'] && a' < b';
    }
    forall a | 0 <= a < |r| ensures r[a] != x {
      var a' := if a < k then a else a + 1;
      assert r[a] == s[a'] && a' != k;
    }
  }

  /** A duplicate-free package list gives a duplicate-free route. */
  lemma {:induction false} RouteDistinct(work: seq<string>, reg: map<string, Registry.Package>, index: map<string, nat>, d: Matrix, cursor: nat)
    requires Covers(index, d) && cursor < |d|
    requires Distinct(work)
    ensures Distinct(Route(work, reg, index, d, cursor))
    decreases |work|
  {
    RouteUnfold(work, reg, index, d, cursor);
    var pick := Scan(work, reg, index, d, cursor);
    if pick.Some? {
      var id := work[pick.value.pos];
      var next := Target(reg, index, id).value;
      var rest := RemoveFirst(work, id);
      RemoveFirstDistinct(work, id);
      RouteDistinct(rest, reg, index, d, next);
      RouteFromWork(rest, reg, index, d, next);
      DistinctCons(id, Route(rest, reg, index, d, next));
    }
  }

  lemma DistinctCons(x: string, s: seq<string>)
    requires Distinct(s) && x !in s
    ensures Distinct([x] + s)
  {
    var r := [x] + s;
    forall a, b | 0 <= a < b < |r| ensures r[a] != r[b] {
      assert r[b] == s[b - 1];
      if a > 0 { assert r[a] == s[a - 1]; } else { assert s[b - 1] in s; }
    }
  }

  /** The route stops early exactly when no remaining package is a candidate, and otherwise starts at the scan's pick. */
  lemma RouteStep(work: seq<string>, reg: map<string, Registry.Package>, index: map<string, nat>, d: Matrix, cursor: nat)
    requires Covers(index, d) && cursor < |d|
    ensures Route(work, reg, index, d, cursor) == [] <==> forall j :: 0 <= j < |work| ==> !Candidate(work, reg, index, d, cursor, j)
    ensures Route(work, reg, index, d, cursor) != [] ==>
      var c := Scan(work, reg, index, d, cursor).value;
      && Route(work, reg, index, d, cursor)[0] == work[c.pos]
      && Route(work, reg, index, d, cursor)[1..]
         == Route(RemoveFirst(work, work[c.pos]), reg, index, d, Target(reg, index, work[c.pos]).value)
  {
    ScanFindsCandidate(work, reg, index, d, cursor);
  }

  /** Every distance between two table locations is known. */
  predicate FullyKnown(d: Matrix) {
    forall i, j :: 0 <= i < |d| && 0 <= j < |d[i]| ==> d[i][j].Some?
  }

  /** When every package resolves and every distance is known, the route covers the whole list. */
  lemma {:induction false} RouteComplete(work: seq<string>, reg: map<string, Registry.Package>, index: map<string, nat>, d: Matrix, cursor: nat)
    requires Covers(index, d) && cursor < |d| && FullyKnown(d)
    requires forall x :: x in work ==> Target(reg, index, x).Some?
    ensures |Route(work, reg, index, d, cursor)| == |work|
    decreases |work|
  {
    if work != [] {
      assert Candidate(work, reg, index, d, cursor, 0);
      ScanFindsCandidate(work, reg, index, d, cursor);
      var c := Scan(work, reg, index, d, cursor).value;
      var id := work[c.pos];
      var rest := RemoveFirst(work, id);
      RemoveFirstMultiset(work, id);
      RouteComplete(rest, reg, index, d, Target(reg, index, id).value);
    }
  }
}
