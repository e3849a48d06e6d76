/**
 * `deliver_packages` and the mileage total of delivery_logic.py.
 *
 * A truck follows the given route, writing "En route" with its clock before each
 * leg and "Delivered" with its clock after it, and then drives back to the hub.
 * A leg whose distance is unknown makes the source raise (adding None to the
 * mileage, or an infinite timedelta); the model stops there with `ok == false`,
 * keeping every change made before the failing statement.
 */
module Delivery {
  import opened Wrappers
  import opened Address
  import opened Distances
  import Registry
  import Trucks
  import Routing

  /** The table's contents: each id's record. */
  type Records = map<string, Registry.Package>

  /** The state one truck's run threads through: its view, the registry and whether it is still running. */
  datatype Run = Run(view: Trucks.TruckView, reg: Records, ok: bool)

  /** The update written before a leg: "En route", departing at the truck's clock. */
  function Departing(clock: real): Registry.Update {
    Registry.Update(Some(Registry.EnRoute), None, Some(Registry.Offset(clock)), None)
  }

  /** The update written after a leg: "Delivered", at the truck's new clock. */
  function Arriving(clock: real): Registry.Update {
    Registry.Update(Some(Registry.Delivered), Some(Registry.Offset(clock)), None, None)
  }

  /** One iteration of `for package_id in route` for a truck carrying `packages`. */
  function DeliverStep(run: Run, id: string, packages: seq<string>, speed: real,
                       index: map<string, nat>, d: Matrix): (r: Run)
    requires Covers(index, d) && speed != 0.0
    ensures r.reg.Keys == run.reg.Keys
    ensures forall other :: other in run.reg && other != id ==> r.reg[other] == run.reg[other]
    ensures !run.ok || id !in packages || id !in run.reg ==> r == run
  {
    if !run.ok || id !in packages || id !in run.reg then run
    else
      var p := run.reg[id];
      var from := GetAddressIndex(index, run.view.location);
      var to := GetAddressIndex(index, p.address);
      if from.None? || to.None? then run
      else
        var reg1 := Registry.UpdateRegistry(run.reg, id, Departing(run.view.clock));
        var distance := d[from.value][to.value];
        if distance.None? then Run(run.view, reg1, false)
        else
          var v := Trucks.Drive(run.view, distance.value, speed, p.address);
          // `if delivery_time:` -- a zero timedelta is falsy and writes nothing
          var reg2 := if Registry.Truthy(Registry.Offset(v.clock)) then Registry.UpdateRegistry(reg1, id, Arriving(v.clock)) else reg1;
          Run(v, reg2, true)
  }

  /** The loop over the route, one package after another. */
  function RunRoute(run: Run, route: seq<string>, packages: seq<string>, speed: real,
                    index: map<string, nat>, d: Matrix): Run
    requires Covers(index, d) && speed != 0.0
    decreases |route|
  {
    if route == [] then run
    else DeliverStep(RunRoute(run, route[..|route| - 1], packages, speed, index, d), route[|route| - 1], packages, speed, index, d)
  }

  /** The return leg to the hub, skipped (with a warning) when either end is not in the address table. */
  function ReturnStep(run: Run, speed: real, index: map<string, nat>, d: Matrix): (r: Run)
    requires Covers(index, d) && speed != 0.0
    ensures r.reg == run.reg
  {
    if !run.ok then run
    else
      var hub := Routing.HubIndex(index);
      var from := GetAddressIndex(index, run.view.location);
      if hub.None? || from.None? then run
      else
        var distance := d[from.value][hub.value];
        if distance.None? then run.(ok := false)
        else run.(view := Trucks.Drive(run.view, distance.value, speed, Hub))
  }

  /** What the fleet loop needs of one truck. */
  datatype TruckInfo = TruckInfo(packages: seq<string>, speed: real, view: Trucks.TruckView)

  /** One truck's turn in `deliver_packages`: nothing for an empty truck, otherwise the route and the return leg. */
  function RunTruck(t: TruckInfo, reg: Records, route: seq<string>, index: map<string, nat>, d: Matrix): Run
    requires Covers(index, d) && t.speed != 0.0
  {
    if |t.packages| == 0 then Run(t.view, reg, true)
    else ReturnStep(RunRoute(Run(t.view, reg, true), route, t.packages, t.speed, index, d), t.speed, index, d)
  }

  /** The state of the whole fleet: every truck's view, the registry and whether no truck failed. */
  datatype Fleet = Fleet(views: seq<Trucks.TruckView>, reg: Records, ok: bool)

  predicate Drivable(ts: seq<TruckInfo>) {
    forall k :: 0 <= k < |ts| ==> ts[k].speed != 0.0
  }

  /** The trucks in turn; after a failure the remaining trucks are not touched. */
  function RunFleet(ts: seq<TruckInfo>, reg: Records, route: seq<string>, index: map<string, nat>, d: Matrix): (f: Fleet)
    requires Covers(index, d) && Drivable(ts)
    ensures |f.views| == |ts|
    decreases |ts|
  {
    if ts == [] then Fleet([], reg, true)
    else
      var prev := RunFleet(ts[..|ts| - 1], reg, route, index, d);
      var last := ts[|ts| - 1];
      if !prev.ok then Fleet(prev.views + [last.view], prev.reg, false)
      else
        var r := RunTruck(last, prev.reg, route, index, d);
        Fleet(prev.views + [r.view], r.reg, r.ok)
  }

  // ---------------------------------------------------------------------
  // Ordering the trucks: `sorted(trucks, key=lambda truck: truck.depart_time)`

  /** Places `t` after every truck that does not leave later than it. */
  function InsertByDepart(t: Trucks.Truck, s: seq<Trucks.Truck>): (r: seq<Trucks.Truck>)
    ensures multiset(r) == multiset(s) + multiset{t}
    ensures forall k :: 0 <= k < |r| ==> r[k] == t || r[k] in s
    decreases |s|
  {
    if s == [] then [t]
    else if t.departTime < s[0].departTime then [t] + s
    else
      assert s == [s[0]] + s[1..];
      [s[0]] + InsertByDepart(t, s[1..])
  }

  function SortByDepart(ts: seq<Trucks.Truck>): (r: seq<Trucks.Truck>)
    ensures multiset(r) == multiset(ts)
    ensures forall k :: 0 <= k < |r| ==> r[k] in ts
    decreases |ts|
  {
    if ts == [] then []
    else
      assert ts == ts[..|ts| - 1] + [ts[|ts| - 1]];
      InsertByDepart(ts[|ts| - 1], SortByDepart(ts[..|ts| - 1]))
  }

  predicate SortedByDepart(s: seq<Trucks.Truck>) {
    forall i, j :: 0 <= i < j < |s| ==> s[i].departTime <= s[j].departTime
  }

  lemma {:induction false} InsertSorted(t: Trucks.Truck, s: seq<Trucks.Truck>)
    requires SortedByDepart(s)
    ensures SortedByDepart(InsertByDepart(t, s))
    decreases |s|
  {
    if s != [] && t.departTime >= s[0].departTime {
      InsertSorted(t, s[1..]);
      var r := InsertByDepart(t, s[1..]);
      forall k | 0 <= k < |r| ensures s[0].departTime <= r[k].departTime {
        assert r[k] in multiset(s[1..]) + multiset{t};
        if r[k] != t {
          assert r[k] in s[1..];
        }
      }
    }
  }

  /** The trucks in order of departure, the same trucks as before. */
  lemma {:induction false} SortByDepartSorted(ts: seq<Trucks.Truck>)
    ensures SortedByDepart(SortByDepart(ts))
    ensures multiset(SortByDepart(ts)) == multiset(ts)
    decreases |ts|
  {
    if ts != [] {
      SortByDepartSorted(ts[..|ts| - 1]);
      InsertSorted(ts[|ts| - 1], SortByDepart(ts[..|ts| - 1]));
    }
  }

  lemma TwoCopies(s: seq<Trucks.Truck>, i: nat, j: nat)
    requires i < j < |s|
    ensures s[i] == s[j] ==> multiset(s)[s[i]] >= 2
  {
    if s[i] == s[j] {
      assert s == s[..i] + [s[i]] + s[i + 1..j] + [s[j]] + s[j + 1..];
    }
  }

  lemma DistinctByCount(s: seq<Trucks.Truck>)
    requires forall t :: multiset(s)[t] <= 1
    ensures Routing.Distinct(s)
  {
    forall i, j | 0 <= i < j < |s| ensures s[i] != s[j] {
      TwoCopies(s, i, j);
    }
  }

  lemma {:induction false} CountOfDistinct(s: seq<Trucks.Truck>, t: Trucks.Truck)
    requires Routing.Distinct(s)
    ensures multiset(s)[t] <= 1
    decreases |s|
  {
    if s != [] {
      var rest := s[1..];
      assert Routing.Distinct(rest) by {
        forall i, j | 0 <= i < j < |rest| ensures rest[i] != rest[j] {
          assert rest[i] == s[i + 1] && rest[j] == s[j + 1];
        }
      }
      CountOfDistinct(rest, t);
      assert s == [s[0]] + rest;
      if s[0] == t {
        assert t !in rest by {
          forall k | 0 <= k < |rest| ensures rest[k] != t {
            assert rest[k] == s[k + 1];
          }
        }
      }
    }
  }

  /** Sorting distinct trucks gives distinct trucks. */
  lemma SortKeepsDistinct(ts: seq<Trucks.Truck>)
    requires Routing.Distinct(ts)
    ensures Routing.Distinct(SortByDepart(ts))
  {
    forall t ensures multiset(SortByDepart(ts))[t] <= 1 {
      CountOfDistinct(ts, t);
    }
    DistinctByCount(SortByDepart(ts));
  }

  function Info(t: Trucks.Truck): TruckInfo
    reads t
  {
    TruckInfo(t.packages, t.speed, t.View())
  }

  function Infos(ts: seq<Trucks.Truck>): (r: seq<TruckInfo>)
    reads set t | t in ts
    ensures |r| == |ts|
    ensures forall k :: 0 <= k < |ts| ==> r[k] == Info(ts[k])
  {
    seq(|ts|, k reads set t | t in ts requires 0 <= k < |ts| => Info(ts[k]))
  }

  // ---------------------------------------------------------------------
  // The methods

  /** One iteration of `for package_id in route`, on the table and the truck themselves. */
  method DeliverOne(truck: Trucks.Truck, id: string, table: Registry.PackageTable,
                    index: map<string, nat>, d: Matrix) returns (ok: bool)
    requires table.Valid() && Covers(index, d) && truck.speed != 0.0
    modifies truck, table, table.buckets
    ensures table.Valid()
    ensures Run(truck.View(), table.contents, ok)
            == DeliverStep(Run(old(truck.View()), old(table.contents), true), id, truck.packages, truck.speed, index, d)
  {
    if id !in truck.packages {
      return true;
    }
    var p := table.Lookup(id);
    if p.None? {
      return true;
    }
    var from := GetAddressIndex(index, truck.location);
    var to := GetAddressIndex(index, p.value.address);
    if from.None? || to.None? {
      return true;
    }
    var _ := table.UpdatePackageDetails(id, Departing(truck.clock));
    var distance := d[from.value][to.value];
    if distance.None? {
      return false;
    }
    var deliveryTime := truck.Deliver(id, distance.value, p.value.address);
    if Registry.Truthy(Registry.Offset(deliveryTime.value)) {
      var _ := table.UpdatePackageDetails(id, Arriving(deliveryTime.value));
    }
    return true;
  }

  /** The return to the hub at the end of a truck's turn. */
  method ReturnLeg(truck: Trucks.Truck, index: map<string, nat>, d: Matrix) returns (ok: bool)
    requires Covers(index, d) && truck.speed != 0.0
    modifies truck
    ensures Run(truck.View(), map[], ok) == ReturnStep(Run(old(truck.View()), map[], true), truck.speed, index, d)
  {
    var hub := GetAddressIndex(index, Hub);
    var from := GetAddressIndex(index, truck.location);
    if hub.Some? && from.Some? {
      var distance := d[from.value][hub.value];
      if distance.None? {
        return false;
      }
      var _ := truck.ReturnToHub(distance.value);
    }
    return true;
  }

  /** One truck's turn in `deliver_packages`, on the table and the truck themselves. */
  method DeliverTruck(truck: Trucks.Truck, route: seq<string>, table: Registry.PackageTable,
                      index: map<string, nat>, d: Matrix) returns (ok: bool)
    requires table.Valid() && Covers(index, d) && truck.speed != 0.0
    modifies truck, table, table.buckets
    ensures table.Valid()
    ensures var r := RunTruck(old(Info(truck)), old(table.contents), route, index, d);
            ok == r.ok && table.contents == r.reg && truck.View() == r.view
  {
    if |truck.packages| == 0 {
      return true;
    }
    ghost var start := Run(truck.View(), table.contents, true);
    var k := 0;
    while k < |route|
      invariant 0 <= k <= |route|
      invariant table.Valid()
      invariant RunRoute(start, route[..k], truck.packages, truck.speed, index, d) == Run(truck.View(), table.contents, true)
    {
      assert route[..k + 1][..k] == route[..k];
      ok := DeliverOne(truck, route[k], table, index, d);
      if !ok {
        CrashSticks(start, route, k + 1, truck.packages, truck.speed, index, d);
        return false;
      }
      k := k + 1;
    }
    assert route[..k] == route;
    ghost var reg := table.contents;
    ghost var before := Run(truck.View(), map[], true);
    ok := ReturnLeg(truck, index, d);
    ReturnStepAnyRecords(before, reg, truck.speed, index, d);
  }

  /**
   * The loop state of `deliver_packages` after the first `done` trucks, on values: `now` holds
   * what the trucks are at present and `reg` the table. The first `done` trucks, and the table,
   * are as `RunFleet` describes; the rest are still as they started.
   */
  ghost predicate Advanced(now: seq<TruckInfo>, reg: Records, infos: seq<TruckInfo>, done: nat, reg0: Records,
                           route: seq<string>, index: map<string, nat>, d: Matrix)
    requires Covers(index, d)
  {
    && done <= |now| == |infos| && Drivable(infos)
    && var f := RunFleet(infos[..done], reg0, route, index, d);
    && f.ok && reg == f.reg
    && (forall k :: 0 <= k < done ==> now[k].view == f.views[k])
    && (forall k :: done <= k < |now| ==> now[k] == infos[k])
  }

  /** How `deliver_packages` ends, on values: the table and every truck are as `RunFleet` describes. */
  ghost predicate Ended(now: seq<TruckInfo>, reg: Records, ok: bool, infos: seq<TruckInfo>, reg0: Records,
                        route: seq<string>, index: map<string, nat>, d: Matrix)
    requires Covers(index, d) && Drivable(infos)
  {
    var f := RunFleet(infos, reg0, route, index, d);
    && |now| == |infos| && ok == f.ok && reg == f.reg
    && forall k :: 0 <= k < |now| ==> now[k].view == f.views[k]
  }

  /**
   * One truck's turn on values: when truck `j` ends as `RunTruck` says, the run either
   * covers one truck more or, on a failure, is over with every later truck untouched.
   */
  lemma TurnAdvances(now: seq<TruckInfo>, reg: Records, infos: seq<TruckInfo>, j: nat, reg0: Records,
                     route: seq<string>, index: map<string, nat>, d: Matrix, after: TruckInfo)
    requires Covers(index, d) && j < |now|
    requires Advanced(now, reg, infos, j, reg0, route, index, d)
    ensures var r := RunTruck(infos[j], reg, route, index, d);
            after.view == r.view ==>
            && (r.ok ==> Advanced(now[j := after], r.reg, infos, j + 1, reg0, route, index, d))
            && (!r.ok ==> Ended(now[j := after], r.reg, false, infos, reg0, route, index, d))
  {
    FleetStep(infos, j, reg0, route, index, d);
    var prev := RunFleet(infos[..j], reg0, route, index, d);
    var next := RunFleet(infos[..j + 1], reg0, route, index, d);
    var r := RunTruck(infos[j], reg, route, index, d);
    var now' := now[j := after];
    if after.view == r.view {
      if r.ok {
        forall k | 0 <= k < j + 1 ensures now'[k].view == next.views[k] {
          if k < j { assert next.views[k] == prev.views[k]; }
        }
      } else {
        FleetAfterCrash(infos, j + 1, reg0, route, index, d);
        forall k | 0 <= k < |now'| ensures now'[k].view == RunFleet(infos, reg0, route, index, d).views[k] {
          if k < j { assert next.views[k] == prev.views[k]; }
        }
      }
    }
  }

  /** `Advanced` on the trucks and the table themselves. */
  ghost predicate Progress(sorted: seq<Trucks.Truck>, infos: seq<TruckInfo>, done: nat, reg0: Records, route: seq<string>,
                           index: map<string, nat>, d: Matrix, table: Registry.PackageTable)
    reads table, set t | t in sorted
    requires Covers(index, d)
  {
    Advanced(Infos(sorted), table.contents, infos, done, reg0, route, index, d)
  }

  /** `Ended` on the trucks and the table themselves. */
  ghost predicate Finished(sorted: seq<Trucks.Truck>, infos: seq<TruckInfo>, ok: bool, reg0: Records, route: seq<string>,
                           index: map<string, nat>, d: Matrix, table: Registry.PackageTable)
    reads table, set t | t in sorted
    requires Covers(index, d) && Drivable(infos)
  {
    Ended(Infos(sorted), table.contents, ok, infos, reg0, route, index, d)
  }

  /** The turn of the `j`-th truck: it extends the run by one truck, or ends it with a failure. */
  method Turn(sorted: seq<Trucks.Truck>, j: nat, route: seq<string>, table: Registry.PackageTable,
              index: map<string, nat>, d: Matrix, ghost infos: seq<TruckInfo>, ghost reg0: Records)
    returns (ok: bool)
    requires table.Valid() && Covers(index, d) && Fit(sorted) && j < |sorted|
    requires Progress(sorted, infos, j, reg0, route, index, d, table)
    modifies sorted[j], table, table.buckets
    ensures table.Valid()
    ensures ok ==> Progress(sorted, infos, j + 1, reg0, route, index, d, table)
    ensures !ok ==> Finished(sorted, infos, false, reg0, route, index, d, table)
  {
    ghost var now := Infos(sorted);
    ghost var reg := table.contents;
    ok := DeliverTruck(sorted[j], route, table, index, d);
    forall k | 0 <= k < |sorted| && k != j ensures Info(sorted[k]) == now[k] {
      if k < j { assert sorted[k] != sorted[j]; } else { assert sorted[j] != sorted[k]; }
    }
    assert Infos(sorted) == now[j := Info(sorted[j])];
    TurnAdvances(now, reg, infos, j, reg0, route, index, d, Info(sorted[j]));
  }

  /** Mutually distinct trucks, none of them with speed zero. */
  predicate Fit(ts: seq<Trucks.Truck>) {
    Routing.Distinct(ts) && forall k :: 0 <= k < |ts| ==> ts[k].speed != 0.0
  }

  /**
   * `deliver_packages`: the trucks in order of departure, taken two at a time.
   * On a failure the remaining trucks are left as they were.
   */
  method DeliverPackages(trucks: seq<Trucks.Truck>, route: seq<string>, table: Registry.PackageTable,
                         index: map<string, nat>, d: Matrix) returns (ok: bool)
    requires table.Valid() && Covers(index, d) && Fit(trucks)
    modifies (set t | t in trucks), table, table.buckets
    ensures table.Valid()
    ensures Fit(SortByDepart(trucks))
    ensures var sorted := SortByDepart(trucks);
            var f := RunFleet(old(Infos(sorted)), old(table.contents), route, index, d);
            && ok == f.ok && table.contents == f.reg
            && forall k :: 0 <= k < |sorted| ==> sorted[k].View() == f.views[k]
  {
    var sorted := SortByDepart(trucks);
    SortKeepsDistinct(trucks);
    forall k | 0 <= k < |sorted| ensures sorted[k].speed != 0.0 {
      var t := sorted[k];
      var m :| 0 <= m < |trucks| && trucks[m] == t;
    }
    ok := DeliverSorted(sorted, route, table, index, d);
  }

  /** The pair loop of `deliver_packages`, over trucks already in order. */
  method DeliverSorted(sorted: seq<Trucks.Truck>, route: seq<string>, table: Registry.PackageTable,
                       index: map<string, nat>, d: Matrix) returns (ok: bool)
    requires table.Valid() && Covers(index, d) && Fit(sorted)
    modifies (set t | t in sorted), table, table.buckets
    ensures table.Valid()
    ensures var f := RunFleet(old(Infos(sorted)), old(table.contents), route, index, d);
            && ok == f.ok && table.contents == f.reg
            && forall k :: 0 <= k < |sorted| ==> sorted[k].View() == f.views[k]
  {
    ghost var infos := Infos(sorted);
    ghost var reg0 := table.contents;
    assert infos[..0] == [];
    var n := |sorted|;
    var i := 0;
    while i < n
      invariant 0 <= i <= n + 1
      invariant table.Valid() && Progress(sorted, infos, Min(i, n), reg0, route, index, d, table)
      decreases n - i
    {
      ok := DeliverPair(sorted, i, route, table, index, d, infos, reg0);
      if !ok {
        return;
      }
      i := i + 2;
    }
    assert Min(i, n) == n;
    assert infos[..n] == infos;
    return true;
  }

  /** The inner loop of `deliver_packages`: the trucks of `sorted_trucks[i:i+2]`, one after the other. */
  method DeliverPair(sorted: seq<Trucks.Truck>, i: nat, route: seq<string>, table: Registry.PackageTable,
                     index: map<string, nat>, d: Matrix, ghost infos: seq<TruckInfo>, ghost reg0: Records)
    returns (ok: bool)
    requires table.Valid() && Covers(index, d) && Fit(sorted) && i < |sorted|
    requires Progress(sorted, infos, i, reg0, route, index, d, table)
    modifies (set t | t in sorted), table, table.buckets
    ensures table.Valid()
    ensures ok ==> Progress(sorted, infos, Min(i + 2, |sorted|), reg0, route, index, d, table)
    ensures !ok ==> Finished(sorted, infos, false, reg0, route, index, d, table)
  {
    var stop := Min(i + 2, |sorted|);
    for j := i to stop
      invariant table.Valid() && Progress(sorted, infos, j, reg0, route, index, d, table)
    {
      ok := Turn(sorted, j, route, table, index, d, infos, reg0);
      if !ok {
        return;
      }
    }
    return true;
  }

  /** One more truck's turn, spelled out. */
  lemma FleetStep(ts: seq<TruckInfo>, j: nat, reg: Records, route: seq<string>, index: map<string, nat>, d: Matrix)
    requires Covers(index, d) && Drivable(ts) && j < |ts|
    ensures var prev := RunFleet(ts[..j], reg, route, index, d);
            var r := RunTruck(ts[j], prev.reg, route, index, d);
            prev.ok ==> RunFleet(ts[..j + 1], reg, route, index, d) == Fleet(prev.views + [r.view], r.reg, r.ok)
  {
    assert ts[..j + 1][..j] == ts[..j];
  }

  /** The registry a return leg carries is passed through untouched. */
  lemma ReturnStepAnyRecords(run: Run, reg: Records, speed: real, index: map<string, nat>, d: Matrix)
    requires Covers(index, d) && speed != 0.0
    ensures ReturnStep(run.(reg := reg), speed, index, d) == ReturnStep(run, speed, index, d).(reg := reg)
  {
  }

  function Min(a: int, b: int): int {
    if a < b then a else b
  }

  // ---------------------------------------------------------------------
  // Failures stop the run

  /** Once a run has failed, the rest of the route changes nothing. */
  lemma {:induction false} CrashSticks(run: Run, route: seq<string>, k: nat, packages: seq<string>, speed: real,
                                       index: map<string, nat>, d: Matrix)
    requires Covers(index, d) && speed != 0.0 && k <= |route|
    requires !RunRoute(run, route[..k], packages, speed, index, d).ok
    ensures RunRoute(run, route, packages, speed, index, d) == RunRoute(run, route[..k], packages, speed, index, d)
    decreases |route|
  {
    if k < |route| {
      var init := route[..|route| - 1];
      assert init[..k] == route[..k];
      CrashSticks(run, init, k, packages, speed, index, d);
    } else {
      assert route[..k] == route;
    }
  }

  /** Once a truck has failed, the fleet's registry and result stay as they are. */
  lemma {:induction false} FleetCrashSticks(ts: seq<TruckInfo>, k: nat, reg: Records, route: seq<string>,
                                            index: map<string, nat>, d: Matrix)
    requires Covers(index, d) && Drivable(ts) && k <= |ts|
    requires !RunFleet(ts[..k], reg, route, index, d).ok
    ensures RunFleet(ts, reg, route, index, d).reg == RunFleet(ts[..k], reg, route, index, d).reg
    ensures !RunFleet(ts, reg, route, index, d).ok
    ensures RunFleet(ts, reg, route, index, d).views[..k] == RunFleet(ts[..k], reg, route, index, d).views
    decreases |ts|
  {
    if k < |ts| {
      var init := ts[..|ts| - 1];
      assert init[..k] == ts[..k];
      FleetCrashSticks(init, k, reg, route, index, d);
      assert RunFleet(ts, reg, route, index, d).views[..k] == RunFleet(init, reg, route, index, d).views[..k];
    } else {
      assert ts[..k] == ts;
    }
  }

  /** After a failure: the registry and the result stay, earlier trucks keep their views, later ones their start. */
  lemma FleetAfterCrash(ts: seq<TruckInfo>, k: nat, reg: Records, route: seq<string>,
                        index: map<string, nat>, d: Matrix)
    requires Covers(index, d) && Drivable(ts) && k <= |ts|
    requires !RunFleet(ts[..k], reg, route, index, d).ok
    ensures var f := RunFleet(ts, reg, route, index, d);
            var g := RunFleet(ts[..k], reg, route, index, d);
            && !f.ok && f.reg == g.reg
            && (forall m :: 0 <= m < k ==> f.views[m] == g.views[m])
            && (forall m :: k <= m < |ts| ==> f.views[m] == ts[m].view)
  {
    var f := RunFleet(ts, reg, route, index, d);
    FleetCrashSticks(ts, k, reg, route, index, d);
    forall m | 0 <= m < k ensures f.views[m] == RunFleet(ts[..k], reg, route, index, d).views[m] {
      assert f.views[m] == f.views[..k][m];
    }
    forall m | k <= m < |ts| ensures f.views[m] == ts[m].view {
      FleetViewsAfterCrash(ts, k, m, reg, route, index, d);
    }
  }

  /** After a failure, every later truck keeps the view it started with. */
  lemma {:induction false} FleetViewsAfterCrash(ts: seq<TruckInfo>, k: nat, m: nat, reg: Records, route: seq<string>,
                                                index: map<string, nat>, d: Matrix)
    requires Covers(index, d) && Drivable(ts) && k <= m < |ts|
    requires !RunFleet(ts[..k], reg, route, index, d).ok
    ensures RunFleet(ts, reg, route, index, d).views[m] == ts[m].view
    decreases |ts|
  {
    var init := ts[..|ts| - 1];
    if m < |ts| - 1 {
      assert init[..k] == ts[..k];
      FleetViewsAfterCrash(init, k, m, reg, route, index, d);
    } else {
      assert init[..k] == ts[..k];
      if k < |ts| - 1 {
        FleetCrashSticks(init, k, reg, route, index, d);
      } else {
        assert init == ts[..k];
      }
    }
  }

  // ---------------------------------------------------------------------
  // What a run does to the records

  /** A truck's run rewrites only records of packages that are both on the route and on the truck. */
  lemma {:induction false} RunRouteFrame(run: Run, route: seq<string>, packages: seq<string>, speed: real,
                                         index: map<string, nat>, d: Matrix)
    requires Covers(index, d) && speed != 0.0
    ensures var r := RunRoute(run, route, packages, speed, index, d);
            && r.reg.Keys == run.reg.Keys
            && forall id :: id in run.reg && (id !in route || id !in packages) ==> r.reg[id] == run.reg[id]
    decreases |route|
  {
    if route != [] {
      var init := route[..|route| - 1];
      RunRouteFrame(run, init, packages, speed, index, d);
      assert forall id :: id in init ==> id in route;
    }
  }

  /** Whether the truck drives the leg for `id`: on the truck, found, both ends resolve and the distance is known. */
  predicate Drives(run: Run, id: string, packages: seq<string>, index: map<string, nat>, d: Matrix)
    requires Covers(index, d)
  {
    && run.ok && id in packages && id in run.reg
    && GetAddressIndex(index, run.view.location).Some?
    && GetAddressIndex(index, run.reg[id].address).Some?
    && d[GetAddressIndex(index, run.view.location).value][GetAddressIndex(index, run.reg[id].address).value].Some?
  }

  /**
   * The stamps a driven leg leaves on the record: "Delivered" at the truck's new clock, departing
   * at its old clock (a zero timedelta, being falsy, writes neither stamp -- and with a zero
   * arrival clock the record stays "En route").
   */
  lemma DeliverStepStamps(run: Run, id: string, packages: seq<string>, speed: real, index: map<string, nat>, d: Matrix)
    requires Covers(index, d) && speed != 0.0 && Drives(run, id, packages, index, d)
    ensures var r := DeliverStep(run, id, packages, speed, index, d);
            var before := run.reg[id];
            var after := r.reg[id];
            && r.ok && r.view.location == before.address
            && after.address == before.address && after.id == before.id
            && after.departureTime == (if run.view.clock != 0.0 then Some(run.view.clock) else before.departureTime)
            && after.status == (if r.view.clock != 0.0 then Registry.Delivered else Registry.EnRoute)
            && after.deliveryTime == (if r.view.clock != 0.0 then Some(r.view.clock) else before.deliveryTime)
  {
  }

  /** A driven leg that does not fail: whatever else is true of the leg, it is driven from the old view. */
  lemma DeliverStepDrive(run: Run, id: string, packages: seq<string>, speed: real, index: map<string, nat>, d: Matrix)
    requires Covers(index, d) && speed != 0.0 && Drives(run, id, packages, index, d)
    ensures var from := GetAddressIndex(index, run.view.location).value;
            var to := GetAddressIndex(index, run.reg[id].address).value;
            DeliverStep(run, id, packages, speed, index, d).view == Trucks.Drive(run.view, d[from][to].value, speed, run.reg[id].address)
  {
  }

  /**
   * A route entry on the truck whose current location or destination does not resolve changes
   * nothing; one whose distance is unknown writes "En route" and then fails, with the truck
   * where it was.
   */
  lemma DeliverStepSkipsOrFails(run: Run, id: string, packages: seq<string>, speed: real, index: map<string, nat>, d: Matrix)
    requires Covers(index, d) && speed != 0.0 && run.ok && id in packages && id in run.reg
    ensures var from := GetAddressIndex(index, run.view.location);
            var to := GetAddressIndex(index, run.reg[id].address);
            var r := DeliverStep(run, id, packages, speed, index, d);
            && (from.None? || to.None? ==> r == run)
            && (from.Some? && to.Some? && d[from.value][to.value].None? ==>
                  r == Run(run.view, Registry.UpdateRegistry(run.reg, id, Departing(run.view.clock)), false))
  {
  }

  /** The return leg, when both ends resolve and the distance is known, drives that distance back to the hub. */
  lemma ReturnStepDrive(run: Run, speed: real, index: map<string, nat>, d: Matrix)
    requires Covers(index, d) && speed != 0.0 && run.ok
    requires Routing.HubIndex(index).Some? && GetAddressIndex(index, run.view.location).Some?
    requires d[GetAddressIndex(index, run.view.location).value][Routing.HubIndex(index).value].Some?
    ensures var from := GetAddressIndex(index, run.view.location).value;
            var hub := Routing.HubIndex(index).value;
            var r := ReturnStep(run, speed, index, d);
            r.ok && r.view == Trucks.Drive(run.view, d[from][hub].value, speed, Hub)
  {
  }

  /** The return leg is skipped when either end does not resolve, and fails, with the truck in place, on an unknown distance. */
  lemma ReturnStepSkipsOrFails(run: Run, speed: real, index: map<string, nat>, d: Matrix)
    requires Covers(index, d) && speed != 0.0 && run.ok
    ensures var hub := Routing.HubIndex(index);
            var from := GetAddressIndex(index, run.view.location);
            var r := ReturnStep(run, speed, index, d);
            && (hub.None? || from.None? ==> r == run)
            && (hub.Some? && from.Some? && d[from.value][hub.value].None? ==> r == run.(ok := false))
  {
  }

  /** The miles one route entry adds: the distance of the leg when it is driven, and nothing otherwise. */
  function LegMiles(run: Run, id: string, packages: seq<string>, index: map<string, nat>, d: Matrix): real
    requires Covers(index, d)
  {
    if Drives(run, id, packages, index, d)
    then d[GetAddressIndex(index, run.view.location).value][GetAddressIndex(index, run.reg[id].address).value].value
    else 0.0
  }

  /** The miles of the legs the route loop drives, entry by entry. */
  function RouteMiles(run: Run, route: seq<string>, packages: seq<string>, speed: real,
                      index: map<string, nat>, d: Matrix): real
    requires Covers(index, d) && speed != 0.0
    decreases |route|
  {
    if route == [] then 0.0
    else
      var init := route[..|route| - 1];
      RouteMiles(run, init, packages, speed, index, d) + LegMiles(RunRoute(run, init, packages, speed, index, d), route[|route| - 1], packages, index, d)
  }

  /** The miles of the return leg: its distance when it is driven, and nothing otherwise. */
  function ReturnMiles(run: Run, index: map<string, nat>, d: Matrix): real
    requires Covers(index, d)
  {
    var hub := Routing.HubIndex(index);
    var from := GetAddressIndex(index, run.view.location);
    if run.ok && hub.Some? && from.Some? && d[from.value][hub.value].Some? then d[from.value][hub.value].value else 0.0
  }

  /** The miles one truck's turn drives: its route legs and the return leg, or nothing for an empty truck. */
  function TruckMiles(t: TruckInfo, reg: Records, route: seq<string>, index: map<string, nat>, d: Matrix): real
    requires Covers(index, d) && t.speed != 0.0
  {
    if |t.packages| == 0 then 0.0
    else
      var start := Run(t.view, reg, true);
      RouteMiles(start, route, t.packages, t.speed, index, d)
      + ReturnMiles(RunRoute(start, route, t.packages, t.speed, index, d), index, d)
  }

  /** One route entry adds exactly the miles of its leg. */
  lemma DeliverStepMileage(run: Run, id: string, packages: seq<string>, speed: real, index: map<string, nat>, d: Matrix)
    requires Covers(index, d) && speed != 0.0
    ensures DeliverStep(run, id, packages, speed, index, d).view.mileage == run.view.mileage + LegMiles(run, id, packages, index, d)
  {
    if Drives(run, id, packages, index, d) {
      DeliverStepDrive(run, id, packages, speed, index, d);
    }
  }

  /** The route loop adds exactly the miles of the legs it drives. */
  lemma {:induction false} RunRouteMileage(run: Run, route: seq<string>, packages: seq<string>, speed: real,
                                           index: map<string, nat>, d: Matrix)
    requires Covers(index, d) && speed != 0.0
    ensures RunRoute(run, route, packages, speed, index, d).view.mileage
            == run.view.mileage + RouteMiles(run, route, packages, speed, index, d)
    decreases |route|
  {
    if route != [] {
      var init := route[..|route| - 1];
      RunRouteMileage(run, init, packages, speed, index, d);
      DeliverStepMileage(RunRoute(run, init, packages, speed, index, d), route[|route| - 1], packages, speed, index, d);
    }
  }

  /** The return leg adds exactly its own miles. */
  lemma ReturnStepMileage(run: Run, speed: real, index: map<string, nat>, d: Matrix)
    requires Covers(index, d) && speed != 0.0
    ensures ReturnStep(run, speed, index, d).view.mileage == run.view.mileage + ReturnMiles(run, index, d)
  {
  }

  /** A truck's mileage grows by the sum of its route legs plus the return leg. */
  lemma TruckMileage(t: TruckInfo, reg: Records, route: seq<string>, index: map<string, nat>, d: Matrix)
    requires Covers(index, d) && t.speed != 0.0
    ensures RunTruck(t, reg, route, index, d).view.mileage == t.view.mileage + TruckMiles(t, reg, route, index, d)
  {
    if |t.packages| > 0 {
      var start := Run(t.view, reg, true);
      RunRouteMileage(start, route, t.packages, t.speed, index, d);
      ReturnStepMileage(RunRoute(start, route, t.packages, t.speed, index, d), t.speed, index, d);
    }
  }

  /** Distances are never negative where they are known. */
  predicate NonNegative(d: Matrix) {
    forall i, j :: 0 <= i < |d| && 0 <= j < |d[i]| && d[i][j].Some? ==> d[i][j].value >= 0.0
  }

  /**
   * After a leg driven by a truck that left after midnight, check_package_status reports the
   * package at the hub before the leg starts, en route during it and delivered from its end on.
   */
  lemma StatusAfterLeg(run: Run, id: string, packages: seq<string>, speed: real, index: map<string, nat>, d: Matrix, t: real)
    requires Covers(index, d) && speed > 0.0 && NonNegative(d) && Drives(run, id, packages, index, d)
    requires run.view.clock > 0.0
    ensures var r := DeliverStep(run, id, packages, speed, index, d);
            Registry.ResolveStatus(r.reg[id], t)
            == if t >= r.view.clock then Registry.Delivered
               else if t >= run.view.clock then Registry.EnRoute
               else Registry.AtHub
  {
    DeliverStepStamps(run, id, packages, speed, index, d);
    DeliverStepDrive(run, id, packages, speed, index, d);
    var from := GetAddressIndex(index, run.view.location).value;
    var to := GetAddressIndex(index, run.reg[id].address).value;
    assert d[from][to].value >= 0.0;
    Trucks.DriveNeverGoesBack(run.view, d[from][to].value, speed, run.reg[id].address);
  }

  // ---------------------------------------------------------------------
  // What a run does to the truck

  /** No step changes the truck's epoch: a leg advances the clock by exactly the hours its miles take. */
  lemma DeliverStepKeepsEpoch(run: Run, id: string, packages: seq<string>, speed: real, index: map<string, nat>, d: Matrix)
    requires Covers(index, d) && speed != 0.0
    ensures Trucks.Epoch(DeliverStep(run, id, packages, speed, index, d).view, speed) == Trucks.Epoch(run.view, speed)
  {
    if Drives(run, id, packages, index, d) {
      DeliverStepDrive(run, id, packages, speed, index, d);
      var from := GetAddressIndex(index, run.view.location).value;
      var to := GetAddressIndex(index, run.reg[id].address).value;
      Trucks.DriveKeepsEpoch(run.view, d[from][to].value, speed, run.reg[id].address);
    }
  }

  /** Nor does the whole route loop. */
  lemma {:induction false} RunRouteKeepsEpoch(run: Run, route: seq<string>, packages: seq<string>, speed: real,
                                              index: map<string, nat>, d: Matrix)
    requires Covers(index, d) && speed != 0.0
    ensures Trucks.Epoch(RunRoute(run, route, packages, speed, index, d).view, speed) == Trucks.Epoch(run.view, speed)
    decreases |route|
  {
    if route != [] {
      var init := route[..|route| - 1];
      RunRouteKeepsEpoch(run, init, packages, speed, index, d);
      DeliverStepKeepsEpoch(RunRoute(run, init, packages, speed, index, d), route[|route| - 1], packages, speed, index, d);
    }
  }

  /** Nor does the return leg. */
  lemma ReturnStepKeepsEpoch(run: Run, speed: real, index: map<string, nat>, d: Matrix)
    requires Covers(index, d) && speed != 0.0
    ensures Trucks.Epoch(ReturnStep(run, speed, index, d).view, speed) == Trucks.Epoch(run.view, speed)
  {
    var hub := Routing.HubIndex(index);
    var from := GetAddressIndex(index, run.view.location);
    if run.ok && hub.Some? && from.Some? && d[from.value][hub.value].Some? {
      Trucks.DriveKeepsEpoch(run.view, d[from.value][hub.value].value, speed, Hub);
    }
  }

  /** Over a truck's whole turn, return leg included, the clock gained at the truck's speed is the mileage gained. */
  lemma TruckLockStep(t: TruckInfo, reg: Records, route: seq<string>, index: map<string, nat>, d: Matrix)
    requires Covers(index, d) && t.speed != 0.0
    ensures var r := RunTruck(t, reg, route, index, d);
            (r.view.clock - t.view.clock) * t.speed == r.view.mileage - t.view.mileage
  {
    var start := Run(t.view, reg, true);
    if |t.packages| > 0 {
      RunRouteKeepsEpoch(start, route, t.packages, t.speed, index, d);
      ReturnStepKeepsEpoch(RunRoute(start, route, t.packages, t.speed, index, d), t.speed, index, d);
    }
    Trucks.EpochLockStep(t.view, RunTruck(t, reg, route, index, d).view, t.speed);
  }

  /** With non-negative distances and a positive speed, no step turns the mileage or the clock back. */
  lemma DeliverStepForward(run: Run, id: string, packages: seq<string>, speed: real, index: map<string, nat>, d: Matrix)
    requires Covers(index, d) && speed > 0.0 && NonNegative(d)
    ensures var r := DeliverStep(run, id, packages, speed, index, d);
            r.view.mileage >= run.view.mileage && r.view.clock >= run.view.clock
  {
    if Drives(run, id, packages, index, d) {
      DeliverStepDrive(run, id, packages, speed, index, d);
      var from := GetAddressIndex(index, run.view.location).value;
      var to := GetAddressIndex(index, run.reg[id].address).value;
      assert d[from][to].value >= 0.0;
      Trucks.DriveNeverGoesBack(run.view, d[from][to].value, speed, run.reg[id].address);
    }
  }

  lemma {:induction false} RunRouteForward(run: Run, route: seq<string>, packages: seq<string>, speed: real,
                                           index: map<string, nat>, d: Matrix)
    requires Covers(index, d) && speed > 0.0 && NonNegative(d)
    ensures var r := RunRoute(run, route, packages, speed, index, d);
            r.view.mileage >= run.view.mileage && r.view.clock >= run.view.clock
    decreases |route|
  {
    if route != [] {
      var init := route[..|route| - 1];
      RunRouteForward(run, init, packages, speed, index, d);
      DeliverStepForward(RunRoute(run, init, packages, speed, index, d), route[|route| - 1], packages, speed, index, d);
    }
  }

  /** A truck's turn, return leg included, never turns its mileage or clock back. */
  lemma TruckForward(t: TruckInfo, reg: Records, route: seq<string>, index: map<string, nat>, d: Matrix)
    requires Covers(index, d) && t.speed > 0.0 && NonNegative(d)
    ensures var r := RunTruck(t, reg, route, index, d);
            r.view.mileage >= t.view.mileage && r.view.clock >= t.view.clock
  {
    if |t.packages| > 0 {
      var mid := RunRoute(Run(t.view, reg, true), route, t.packages, t.speed, index, d);
      RunRouteForward(Run(t.view, reg, true), route, t.packages, t.speed, index, d);
      var hub := Routing.HubIndex(index);
      var from := GetAddressIndex(index, mid.view.location);
      if mid.ok && hub.Some? && from.Some? && d[from.value][hub.value].Some? {
        assert d[from.value][hub.value].value >= 0.0;
        Trucks.DriveNeverGoesBack(mid.view, d[from.value][hub.value].value, t.speed, Hub);
      }
    }
  }

  // ---------------------------------------------------------------------
  // What the fleet loop does

  /** The fleet run rewrites only records of routed packages and keeps every key. */
  lemma {:induction false} FleetFrame(ts: seq<TruckInfo>, reg: Records, route: seq<string>, index: map<string, nat>, d: Matrix)
    requires Covers(index, d) && Drivable(ts)
    ensures var f := RunFleet(ts, reg, route, index, d);
            && f.reg.Keys == reg.Keys
            && forall id :: id in reg && id !in route ==> f.reg[id] == reg[id]
    decreases |ts|
  {
    if ts != [] {
      var prev := RunFleet(ts[..|ts| - 1], reg, route, index, d);
      FleetFrame(ts[..|ts| - 1], reg, route, index, d);
      var last := ts[|ts| - 1];
      if prev.ok && |last.packages| > 0 {
        RunRouteFrame(Run(last.view, prev.reg, true), route, last.packages, last.speed, index, d);
      }
    }
  }

  /** A truck without packages is skipped: its mileage, clock and location stay as they were. */
  lemma {:induction false} FleetSkipsEmptyTrucks(ts: seq<TruckInfo>, reg: Records, route: seq<string>, index: map<string, nat>, d: Matrix)
    requires Covers(index, d) && Drivable(ts)
    ensures var f := RunFleet(ts, reg, route, index, d);
            forall k :: 0 <= k < |ts| && |ts[k].packages| == 0 ==> f.views[k] == ts[k].view
    decreases |ts|
  {
    if ts != [] {
      var init := ts[..|ts| - 1];
      FleetSkipsEmptyTrucks(init, reg, route, index, d);
      var f := RunFleet(ts, reg, route, index, d);
      var prev := RunFleet(init, reg, route, index, d);
      forall k | 0 <= k < |ts| - 1 ensures f.views[k] == prev.views[k] && ts[k] == init[k] {
      }
    }
  }

  /** With non-negative distances and positive speeds, no truck ends with less mileage or an earlier clock. */
  lemma {:induction false} FleetForward(ts: seq<TruckInfo>, reg: Records, route: seq<string>, index: map<string, nat>, d: Matrix)
    requires Covers(index, d) && NonNegative(d)
    requires forall k :: 0 <= k < |ts| ==> ts[k].speed > 0.0
    ensures Drivable(ts)
    ensures var f := RunFleet(ts, reg, route, index, d);
            forall k :: 0 <= k < |ts| ==> f.views[k].mileage >= ts[k].view.mileage && f.views[k].clock >= ts[k].view.clock
    decreases |ts|
  {
    if ts != [] {
      var init := ts[..|ts| - 1];
      FleetForward(init, reg, route, index, d);
      var f := RunFleet(ts, reg, route, index, d);
      var prev := RunFleet(init, reg, route, index, d);
      var last := ts[|ts| - 1];
      if prev.ok {
        TruckForward(last, prev.reg, route, index, d);
      }
      forall k | 0 <= k < |ts| - 1 ensures f.views[k] == prev.views[k] && ts[k] == init[k] {
      }
    }
  }

  // ---------------------------------------------------------------------
  // `calculate_and_print_total_mileage`

  /** `sum(truck.mileage for truck in trucks)`. */
  function TotalMileage(ts: seq<Trucks.Truck>): real
    reads set t | t in ts
  {
    if ts == [] then 0.0 else ts[0].mileage + TotalMileage(ts[1..])
  }

  /** The total of two lists joined is the sum of their totals. */
  lemma {:induction false} TotalMileageConcat(s: seq<Trucks.Truck>, t: seq<Trucks.Truck>)
    ensures TotalMileage(s + t) == TotalMileage(s) + TotalMileage(t)
    decreases |s|
  {
    if s == [] {
      assert s + t == t;
    } else {
      assert (s + t)[0] == s[0] && (s + t)[1..] == s[1..] + t;
      TotalMileageConcat(s[1..], t);
    }
  }

  /** Taking the first element off one list and a copy of it off the other keeps them permutations. */
  lemma DropMatching<T>(a: seq<T>, b: seq<T>, k: nat)
    requires multiset(a) == multiset(b) && a != [] && k < |b| && b[k] == a[0]
    ensures multiset(a[1..]) == multiset(b[..k] + b[k + 1..])
  {
    assert a == [a[0]] + a[1..];
    assert b == b[..k] + [b[k]] + b[k + 1..];
    assert multiset(b) == multiset(b[..k]) + multiset{a[0]} + multiset(b[k + 1..]);
    assert multiset(a) == multiset{a[0]} + multiset(a[1..]);
    assert multiset(b[..k] + b[k + 1..]) == multiset(b[..k]) + multiset(b[k + 1..]);
    assert multiset(a[1..]) == multiset(a) - multiset{a[0]};
    assert multiset(b[..k] + b[k + 1..]) == multiset(b) - multiset{a[0]};
  }

  /** Any two orders of the same trucks have the same total. */
  lemma {:induction false} TotalMileagePermutation(a: seq<Trucks.Truck>, b: seq<Trucks.Truck>)
    requires multiset(a) == multiset(b)
    ensures TotalMileage(a) == TotalMileage(b)
    decreases |a|
  {
    if a != [] {
      var x := a[0];
      assert x in multiset(b);
      var k :| 0 <= k < |b| && b[k] == x;
      var front, back := b[..k], b[k + 1..];
      var rest := [x] + back;
      assert b == front + rest;
      assert rest[1..] == back;
      DropMatching(a, b, k);
      TotalMileagePermutation(a[1..], front + back);
      TotalMileageConcat(front, rest);
      TotalMileageConcat(front, back);
      assert TotalMileage(rest) == x.mileage + TotalMileage(back);
    }
  }

  /** Sorting the trucks by departure does not change the total. */
  lemma TotalMileageSorted(ts: seq<Trucks.Truck>)
    ensures TotalMileage(SortByDepart(ts)) == TotalMileage(ts)
  {
    TotalMileagePermutation(SortByDepart(ts), ts);
  }
}
