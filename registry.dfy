/**
 * The package registry of hash_table.py: a fixed array of buckets with separate
 * chaining, keyed by package id, plus the time-based status resolver.
 * Python's `hash` is process-randomised, so the table takes its hash function as a
 * parameter; slots are `hash(id) % size` as in the source.
 */
module Registry {
  import opened Wrappers
  import Clock

  datatype Status = AtHub | EnRoute | Delivered

  /** The notes stored when a package has none. */
  const NoNotes: string := "No special notes"

  /** The one package whose address change waits for a fixed hour. */
  const CutoffPackage: string := "9"

  /** 10:20, in hours since midnight. */
  const AddressCutoff: real := 10.0 + 20.0 / 60.0

  /** A package record; times are hours since midnight. */
  datatype Package = Package(
    id: string,
    address: string,
    deadline: string,
    weight: string,
    notes: string,
    status: Status,
    deliveryTime: Option<real>,
    departureTime: Option<real>)

  /** The record `insert` builds from `package_data` (address, then optional deadline, weight, notes). */
  function NewRecord(id: string, data: seq<string>): (p: Package)
    requires |data| >= 1
    ensures p.id == id && p.address == data[0]
    ensures p.deadline == (if |data| > 1 then data[1] else "")
    ensures p.weight == (if |data| > 2 then data[2] else "")
    ensures p.notes != "" && (p.notes == NoNotes <==> |data| <= 3 || data[3] in {"", NoNotes})
    ensures |data| > 3 && data[3] != "" ==> p.notes == data[3]
    ensures p.status == AtHub && p.deliveryTime.None? && p.departureTime.None?
  {
    Package(
      id,
      data[0],
      if |data| > 1 then data[1] else "",
      if |data| > 2 then data[2] else "",
      if |data| > 3 && data[3] != "" then data[3] else NoNotes,
      AtHub, None, None)
  }

  // ---------------------------------------------------------------------
  // update_package_details

  /** A time argument: wall-clock text to be parsed, or an already computed offset (a `timedelta`). */
  datatype TimeArg = Text(text: string) | Offset(hours: real)

  /** Python truthiness: `""` and `timedelta(0)` count as not supplied. */
  predicate Truthy(a: TimeArg) {
    match a
    case Text(s) => s != ""
    case Offset(h) => h != 0.0
  }

  predicate GivenTime(a: Option<TimeArg>) {
    a.Some? && Truthy(a.value)
  }

  predicate GivenAddress(a: Option<string>) {
    a.Some? && a.value != ""
  }

  /** `_parse_time`: text through strptime (None when it does not parse), offsets unchanged. */
  function ParseTime(a: TimeArg): (r: Option<real>)
    ensures a.Offset? ==> r == Some(a.hours)
    ensures a.Text? ==> r == Clock.ParseClock(a.text)
  {
    match a
    case Text(s) => Clock.ParseClock(s)
    case Offset(h) => Some(h)
  }

  /** The keyword arguments of one update_package_details call; None means not passed. */
  datatype Update = Update(
    status: Option<Status>,
    deliveryTime: Option<TimeArg>,
    departureTime: Option<TimeArg>,
    newAddress: Option<string>)

  /** The time the package-9 rule compares with the cutoff: the new departure time if one was passed, else the stored one. */
  function EffectiveTime(p: Package, u: Update): Option<real> {
    if GivenTime(u.departureTime) then ParseTime(u.departureTime.value) else p.departureTime
  }

  /**
   * The record update_package_details writes back for a found package, or None when it
   * returns False without writing (package 9, a new address, and no time to compare).
   */
  function ApplyUpdate(p: Package, u: Update): (r: Option<Package>)
    ensures r.None? <==> p.id == CutoffPackage && GivenAddress(u.newAddress) && EffectiveTime(p, u).None?
    ensures r.Some? ==> r.value.id == p.id && r.value.deadline == p.deadline
                        && r.value.weight == p.weight && r.value.notes == p.notes
    ensures r.Some? ==> r.value.status == (if u.status.Some? then u.status.value else p.status)
    ensures r.Some? ==> r.value.deliveryTime == (if GivenTime(u.deliveryTime) then ParseTime(u.deliveryTime.value) else p.deliveryTime)
    ensures r.Some? ==> r.value.departureTime == EffectiveTime(p, u)
    ensures r.Some? && r.value.address != p.address ==> GivenAddress(u.newAddress) && r.value.address == u.newAddress.value
  {
    var status := if u.status.Some? then u.status.value else p.status;
    var delivery := if GivenTime(u.deliveryTime) then ParseTime(u.deliveryTime.value) else p.deliveryTime;
    var departure := if GivenTime(u.departureTime) then ParseTime(u.departureTime.value) else p.departureTime;
    var written := p.(status := status, deliveryTime := delivery, departureTime := departure);
    if p.id == CutoffPackage && GivenAddress(u.newAddress) then
      match departure
      case None => None
      case Some(t) => Some(if t >= AddressCutoff then written.(address := u.newAddress.value) else written)
    else if GivenAddress(u.newAddress) then Some(written.(address := u.newAddress.value))
    else Some(written)
  }

  /** For every package but 9, a passed address is always written. */
  lemma AddressWrittenUnlessCutoffPackage(p: Package, u: Update)
    requires p.id != CutoffPackage && GivenAddress(u.newAddress)
    ensures ApplyUpdate(p, u) == Some(ApplyUpdate(p, u).value.(address := u.newAddress.value))
    ensures ApplyUpdate(p, u).value.address == u.newAddress.value
  {
  }

  /** The package-9 rule: the address changes exactly when the effective time is at or after 10:20. */
  lemma CutoffRule(p: Package, u: Update)
    requires p.id == CutoffPackage && GivenAddress(u.newAddress) && EffectiveTime(p, u).Some?
    ensures ApplyUpdate(p, u).Some?
    ensures EffectiveTime(p, u).value >= AddressCutoff ==> ApplyUpdate(p, u).value.address == u.newAddress.value
    ensures EffectiveTime(p, u).value < AddressCutoff ==> ApplyUpdate(p, u).value.address == p.address
  {
  }

  /** A call that passes nothing rewrites the record unchanged. */
  lemma EmptyUpdateKeepsRecord(p: Package)
    ensures ApplyUpdate(p, Update(None, None, None, None)) == Some(p)
  {
  }

  /** The registry after an update call: the record rewritten when the call returns True. */
  function UpdateRegistry(reg: map<string, Package>, id: string, u: Update): (r: map<string, Package>)
    ensures r.Keys == reg.Keys
    ensures forall other :: other in reg && other != id ==> r[other] == reg[other]
  {
    if id in reg && ApplyUpdate(reg[id], u).Some? then reg[id := ApplyUpdate(reg[id], u).value] else reg
  }

  /** The value update_package_details returns. */
  predicate UpdateSucceeds(reg: map<string, Package>, id: string, u: Update) {
    id in reg && ApplyUpdate(reg[id], u).Some?
  }

  // ---------------------------------------------------------------------
  // check_package_status

  /**
   * The status of a record at a check time, from its two timestamps. Stored offsets and
   * the check time are on the same axis (hours since midnight of the check day).
   */
  function ResolveStatus(p: Package, t: real): (s: Status)
    ensures s == Delivered <==> p.departureTime.Some? && p.deliveryTime.Some? && t >= p.deliveryTime.value
    ensures s == EnRoute <==> p.departureTime.Some? && t >= p.departureTime.value
                              && (p.deliveryTime.None? || t < p.deliveryTime.value)
  {
    match p.departureTime
    case None => AtHub
    case Some(departure) =>
      match p.deliveryTime
      case None => if t >= departure then EnRoute else AtHub
      case Some(delivery) =>
        if t >= delivery then Delivered
        else if departure <= t < delivery then EnRoute
        else AtHub
  }

  function Rank(s: Status): nat {
    match s
    case AtHub => 0
    case EnRoute => 1
    case Delivered => 2
  }

  /** For a fixed record the status only moves forward, At hub to En route to Delivered, as time passes. */
  lemma StatusMonotone(p: Package, t1: real, t2: real)
    requires t1 <= t2
    ensures Rank(ResolveStatus(p, t1)) <= Rank(ResolveStatus(p, t2))
  {
  }

  /** What check_package_status reports: the resolved status, or that the id is unknown. */
  datatype StatusReport = NotFound | Found(status: Status)

  function Report(reg: map<string, Package>, id: string, t: real): StatusReport {
    if id in reg then Found(ResolveStatus(reg[id], t)) else NotFound
  }

  /**
   * The update check_all_truck_packages issues after a status check: the check time as
   * text for a transition the record has no timestamp for, or nothing.
   */
  function BackfillRequest(p: Package, s: Status, t: real): Option<Update>
    requires 0.0 <= t < 24.0
  {
    if s == EnRoute && p.departureTime.None? then Some(Update(None, None, Some(Text(Clock.FormatClock(t))), None))
    else if s == Delivered && p.deliveryTime.None? then Some(Update(None, Some(Text(Clock.FormatClock(t))), None, None))
    else None
  }

  /** The backfill never fires: En route needs a departure time and Delivered a delivery time. */
  lemma BackfillNeverFires(p: Package, t: real)
    requires 0.0 <= t < 24.0
    ensures BackfillRequest(p, ResolveStatus(p, t), t).None?
  {
  }

  // ---------------------------------------------------------------------
  // The table

  /** `hash(key) % size`. */
  function SlotOf(hash: string -> int, size: nat, id: string): (b: nat)
    requires size > 0
    ensures b < size
  {
    hash(id) % size
  }

  /**
   * Separate chaining: every record sits in the bucket of its id, no bucket holds an id
   * twice, and the records are exactly those of `contents`.
   */
  ghost predicate Chained(bs: seq<seq<Package>>, contents: map<string, Package>, hash: string -> int) {
    && |bs| > 0
    && (forall b, k :: 0 <= b < |bs| && 0 <= k < |bs[b]| ==>
          SlotOf(hash, |bs|, bs[b][k].id) == b && bs[b][k].id in contents && contents[bs[b][k].id] == bs[b][k])
    && (forall b, k1, k2 :: 0 <= b < |bs| && 0 <= k1 < k2 < |bs[b]| ==> bs[b][k1].id != bs[b][k2].id)
    && (forall id :: id in contents ==> contents[id].id == id && contents[id] in bs[SlotOf(hash, |bs|, id)])
  }

  /** Overwriting a record in its slot with one of the same id keeps the chaining. */
  lemma ReplaceKeepsChained(bs: seq<seq<Package>>, contents: map<string, Package>, hash: string -> int,
                            slot: nat, i: nat, record: Package)
    requires Chained(bs, contents, hash)
    requires slot < |bs| && i < |bs[slot]| && bs[slot][i].id == record.id
    ensures Chained(bs[slot := bs[slot][i := record]], contents[record.id := record], hash)
  {
    var bs' := bs[slot := bs[slot][i := record]];
    var c' := contents[record.id := record];
    forall id | id in c' ensures c'[id].id == id && c'[id] in bs'[SlotOf(hash, |bs'|, id)] {
      if id != record.id {
        var k :| 0 <= k < |bs[SlotOf(hash, |bs|, id)]| && bs[SlotOf(hash, |bs|, id)][k] == contents[id];
        assert k != i || SlotOf(hash, |bs|, id) != slot;
        assert bs'[SlotOf(hash, |bs'|, id)][k] == contents[id];
      } else {
        assert bs'[slot][i] == record;
      }
    }
  }

  /** Appending a record whose id its slot does not hold keeps the chaining. */
  lemma AppendKeepsChained(bs: seq<seq<Package>>, contents: map<string, Package>, hash: string -> int,
                           slot: nat, record: Package)
    requires Chained(bs, contents, hash)
    requires slot < |bs| && SlotOf(hash, |bs|, record.id) == slot
    requires forall k :: 0 <= k < |bs[slot]| ==> bs[slot][k].id != record.id
    ensures Chained(bs[slot := bs[slot] + [record]], contents[record.id := record], hash)
  {
    var bs' := bs[slot := bs[slot] + [record]];
    var c' := contents[record.id := record];
    assert record.id !in contents;
    forall id | id in c' ensures c'[id].id == id && c'[id] in bs'[SlotOf(hash, |bs'|, id)] {
      if id != record.id {
        var k :| 0 <= k < |bs[SlotOf(hash, |bs|, id)]| && bs[SlotOf(hash, |bs|, id)][k] == contents[id];
        assert bs'[SlotOf(hash, |bs'|, id)][k] == contents[id];
      } else {
        assert bs'[slot][|bs[slot]|] == record;
      }
    }
  }

  class PackageTable {
    const size: nat
    const hash: string -> int
    const buckets: array<seq<Package>>
    /** The records by id. */
    ghost var contents: map<string, Package>

    /** `hash(key) % size`. */
    function Slot(id: string): (b: nat)
      requires size > 0
      ensures b < size
    {
      SlotOf(hash, size, id)
    }

    ghost predicate Valid()
      reads this, buckets
    {
      size > 0 && buckets.Length == size && Chained(buckets[..], contents, hash)
    }

    /** `HashTable.__init__`: `size` empty buckets. */
    constructor (size: nat, hash: string -> int)
      requires size > 0
      ensures Valid() && fresh(buckets)
      ensures this.size == size && this.hash == hash && contents == map[]
    {
      this.size := size;
      this.hash := hash;
      buckets := new seq<Package>[size](_ => []);
      contents := map[];
    }

    /** `lookup`: scans bucket `Slot(id)` for the record with this id. */
    method Lookup(id: string) returns (r: Option<Package>)
      requires Valid()
      ensures r == if id in contents then Some(contents[id]) else None
    {
      var bucket := buckets[Slot(id)];
      var i := 0;
      while i < |bucket|
        invariant 0 <= i <= |bucket|
        invariant forall k :: 0 <= k < i ==> bucket[k].id != id
      {
        if bucket[i].id == id {
          return Some(bucket[i]);
        }
        i := i + 1;
      }
      return None;
    }

    /** `insert`: overwrites the record with this id in its slot, or appends a new one. */
    method Insert(id: string, data: seq<string>)
      requires Valid() && |data| >= 1
      modifies this, buckets
      ensures Valid()
      ensures contents == old(contents)[id := NewRecord(id, data)]
    {
      var record := NewRecord(id, data);
      var slot := Slot(id);
      var bucket := buckets[slot];
      var i := 0;
      while i < |bucket|
        invariant 0 <= i <= |bucket|
        invariant forall k :: 0 <= k < i ==> bucket[k].id != id
      {
        if bucket[i].id == id {
          ReplaceKeepsChained(buckets[..], contents, hash, slot, i, record);
          buckets[slot] := bucket[i := record];
          contents := contents[id := record];
          return;
        }
        i := i + 1;
      }
      AppendKeepsChained(buckets[..], contents, hash, slot, record);
      buckets[slot] := bucket + [record];
      contents := contents[id := record];
    }

    /** `update_package_details`: rewrites the record with the given fields and reports whether it did. */
    method UpdatePackageDetails(id: string, u: Update) returns (ok: bool)
      requires Valid()
      modifies this, buckets
      ensures Valid()
      ensures ok == UpdateSucceeds(old(contents), id, u)
      ensures contents == UpdateRegistry(old(contents), id, u)
    {
      var slot := Slot(id);
      var bucket := buckets[slot];
      var i := 0;
      while i < |bucket|
        invariant 0 <= i <= |bucket|
        invariant forall k :: 0 <= k < i ==> bucket[k].id != id
      {
        if bucket[i].id == id {
          var written := ApplyUpdate(bucket[i], u);
          if written.None? {
            return false;
          }
          ReplaceKeepsChained(buckets[..], contents, hash, slot, i, written.value);
          buckets[slot] := bucket[i := written.value];
          contents := contents[id := written.value];
          return true;
        }
        i := i + 1;
      }
      return false;
    }

    /** `check_package_status` at an explicit check time. */
    method CheckPackageStatus(id: string, t: real) returns (r: StatusReport)
      requires Valid()
      ensures r == Report(contents, id, t)
    {
      var p := Lookup(id);
      if p.None? {
        return NotFound;
      }
      return Found(ResolveStatus(p.value, t));
    }

    /**
     * `check_all_truck_packages`: the status of every package on a truck at one time of
     * day. Its backfill writes can never happen (BackfillNeverFires), so it reads only.
     */
    method CheckAllTruckPackages(packages: seq<string>, t: real) returns (reports: seq<StatusReport>)
      requires Valid() && 0.0 <= t < 24.0
      ensures |reports| == |packages|
      ensures forall i :: 0 <= i < |packages| ==> reports[i] == Report(contents, packages[i], t)
    {
      reports := [];
      var i := 0;
      while i < |packages|
        invariant 0 <= i <= |packages| && |reports| == i
        invariant forall k :: 0 <= k < i ==> reports[k] == Report(contents, packages[k], t)
      {
        var id := packages[i];
        var report := CheckPackageStatus(id, t);
        reports := reports + [report];
        var p := Lookup(id);
        if p.Some? {
          BackfillNeverFires(p.value, t);
          assert BackfillRequest(p.value, report.status, t).None?;
        }
        i := i + 1;
      }
    }
  }
}
