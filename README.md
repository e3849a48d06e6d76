# Package-delivery simulator: a verified model

This project models the core of a package-delivery simulator written in Python. The simulator has three main parts:

- a **package registry**: a fixed-size hash table with separate chaining, keyed by package id;
- a **routing and delivery engine**: address normalisation, completion of the distance matrix, a greedy nearest-neighbour route, and a dispatcher that drives trucks in departure order and writes "En route" and "Delivered" times into the registry;
- a **truck**: a small state machine with three fields (mileage, clock, location).

The model is written in Dafny and follows the source's structure:

| module | file | models |
|---|---|---|
| `Wrappers` | wrappers.dfy | the `Option` type used throughout |
| `Clock` | clock.dfy | `HH:MM:SS` parsing (strptime `%H:%M:%S`) and a formatter that is its partner |
| `Registry` | registry.dfy | `HashTable` in hash_table.py. The class `PackageTable` keeps its buckets in an `array<seq<Package>>` and a ghost map `contents`. The update rule, the status decision table and the backfill are functions. |
| `Address` | address.dfy | `normalize_address`, the address-index fold of `load_address_data`, and `get_address_index` |
| `Distances` | distances.dfy | the two in-place completion passes of `load_distance_data`, over an `array2` |
| `Routing` | routing.dfy | `nearest_neighbor`, as a method proved equal to a recursive specification `Route` |
| `Trucks` | trucks.dfy | `Truck` in truck.py, as a class with `deliver` and `return_to_hub` |
| `Delivery` | delivery.dfy | `deliver_packages` and the total-mileage sum. The methods are proved equal to the specification functions `DeliverStep`, `RunRoute`, `RunTruck` and `RunFleet`. |
| `Findings` | findings.dfy | the package-9 cutoff comparison, both as the source writes it and as intended |

## Representations

**Time.** Every time is a `real` count of hours since midnight, on a single axis. In the source the truck clock is a `timedelta` offset, and so is every stamp that delivery writes from it. A stamp written from text is a `datetime` dated 1900-01-01 by strptime.

A time argument to `update_package_details` is `TimeArg`: either `Text(s)`, parsed like `_parse_time`, or `Offset(h)`. Python truthiness is kept: `Text("")` and `Offset(0.0)` both count as "not given".

**Distances.** A cell of the matrix that completion works on is a `Cell`: `Blank` for Python's `None` (a blank or unparsable cell), `NonFinite` for `inf` or `nan`, and `Miles(m)` for a finite value. Completion fills only `Blank` cells, so `NonFinite` is kept. Routing and delivery see each cell through `Usable`, as an `Option<real>`: a finite distance is `Some`, and everything else is `None`. That matches the source: `inf` and `nan` are never chosen by `distance < min_distance`, and driving over one raises in `timedelta`, as driving over `None` raises in `+=`.

**Hashing.** Python's `hash` is a parameter `hash: string -> int`. The bucket index is `hash(id) % size`, which is always in `[0, size)`.

**Status.** A status is `AtHub | EnRoute | Delivered`, not a message string. A status check returns `NotFound` or `Found(status)`.

**Address index.** The global `address_to_index` is an explicit `map<string, nat>` parameter. The distance matrix is a `seq<seq<Option<real>>>` parameter.

**Crashes.** Where the source would raise mid-delivery, the run ends with `ok = false`. This happens when it adds `None` to the mileage for an unknown distance on a leg or on the return leg. Everything written before the failing statement is kept.

## Model

| member | source | states |
|---|---|---|
| Registry.PackageTable.constructor | hash_table.py:5-9 | A new table has `size` empty buckets, keeps the given hash, and holds no records. |
| Registry.SlotOf | hash_table.py:12-13 | The bucket of an id is below the table size. |
| Registry.PackageTable.Slot | hash_table.py:12-13 | The table's own bucket index for an id is below its size. |
| Registry.NewRecord | hash_table.py:18-27 | A fresh record has the given id and address, status At hub, and no delivery or departure time. A missing deadline or weight becomes "". Missing or empty notes become "No special notes"; any other notes are stored verbatim. |
| Registry.PackageTable.Insert | hash_table.py:16-34 | After insert, the id maps to a fresh record and every other id keeps its record. The table invariant is kept: each id at most once, and always in bucket `hash(id) % size`. |
| Registry.ReplaceKeepsChained | hash_table.py:30-33 | Overwriting the slot that holds the same id keeps the bucket invariant and the id-to-record map. |
| Registry.AppendKeepsChained | hash_table.py:30-34 | Appending a record to its own bucket, when no slot there has its id, keeps the bucket invariant. |
| Registry.PackageTable.Lookup | hash_table.py:79-84 | Lookup returns the stored record exactly when the id was inserted, and `None` otherwise. |
| Registry.ParseTime | hash_table.py:139-146 | An offset is kept as given. A string is parsed as `HH:MM:SS`, and an unparsable one gives `None`. |
| Clock.ParseClock | hash_table.py:139-146 | A parsed time lies in `[0, 24)` hours. |
| Clock.FormatClock | hash_table.py:224-227 | `strftime('%H:%M:%S')` of a time of day: eight characters with colons at positions 2 and 5. `ParseFormatRoundTrip` proves that parsing it back gives the time truncated to whole seconds. |
| Clock.ReadField | hash_table.py:139-146 | A one- or two-digit field is read exactly when its first character is a digit. Its value is below 100. |
| Clock.ParseFormatRoundTrip | hash_table.py:139-146 | Formatting a time as `HH:MM:SS` and parsing it back gives the time truncated to whole seconds, which is less than a second earlier. |
| Clock.ParseClockExamples | hash_table.py:139-146 | "10:20:00" and "9:05:30" parse to their hours. Hour 24, minute 60, a missing seconds field and the empty string are rejected. |
| Registry.EffectiveTime | hash_table.py:103-112 | The time the package-9 rule compares: the parsed given departure when the argument is truthy, even when it fails to parse, and the stored departure otherwise. |
| Registry.ApplyUpdate | hash_table.py:87-136 | An update fails exactly for package 9 with a new address and no `EffectiveTime`: a truthy departure argument that does not parse, or no argument and no stored departure. Otherwise it writes each truthy field, parses times, keeps the id and deadline, and changes the address only to the supplied one. |
| Registry.AddressWrittenUnlessCutoffPackage | hash_table.py:128-134 | For every package except 9, a truthy new address is always written. |
| Registry.CutoffRule | hash_table.py:110-127 | For package 9 with a new address and an effective departure time, the update succeeds. The address is replaced from 10:20 on and kept before 10:20, while the other fields are still written. |
| Registry.EmptyUpdateKeepsRecord | hash_table.py:93-108 | An update that supplies nothing leaves the record exactly as it was. |
| Registry.UpdateRegistry | hash_table.py:87-136 | An update keeps the set of ids and never changes another id's record. |
| Registry.PackageTable.UpdatePackageDetails | hash_table.py:87-136 | Returns False for an absent id or a refused package-9 update, and then changes nothing. Otherwise the record becomes `ApplyUpdate` of the old one. The table invariant is kept. |
| Registry.Report | hash_table.py:150-193 | Specifies one status check on the registry: NotFound for an absent id, otherwise the resolved status of its record. `CheckPackageStatus` is proved to return it. |
| Registry.ResolveStatus | hash_table.py:174-193 | The decision table: Delivered iff both stamps are set and check ≥ delivery. En route iff departure is set and check ≥ departure, but not Delivered. At hub otherwise. |
| Registry.StatusMonotone | hash_table.py:174-193 | For a fixed record, a later check time never gives an earlier status in the order At hub, En route, Delivered. |
| Registry.PackageTable.CheckPackageStatus | hash_table.py:150-193 | Returns NotFound for an unknown id, and otherwise the resolved status of the stored record at the check time. |
| Registry.BackfillRequest | hash_table.py:222-227 | The update the per-truck check would write after a status check: departure for "en route", delivery for "delivered", each only when the stamp is missing. `BackfillNeverFires` proves it is always None. |
| Registry.BackfillNeverFires | hash_table.py:222-227 | With a check time in `[0, 24)`, the status the check resolves never triggers the backfill update. So the per-truck check writes nothing. |
| Registry.PackageTable.CheckAllTruckPackages | hash_table.py:196-227 | Gives one report per package on the truck, in truck order; each is that package's status report. |
| Address.Strip | delivery_logic.py:11-14 | `str.strip()`: right strip of the left strip. `StripLeftIsSuffix`, `StripRightIsPrefix` and `StripSingleSpaced` state what it leaves. |
| Address.Replace | delivery_logic.py:11 | `str.replace`: every non-overlapping occurrence, scanning left to right. `ReplaceAbsent` states when nothing changes. |
| Address.Collapse | delivery_logic.py:14 | `re.sub(r'[\W_]+', ' ', …)`: every maximal non-word run becomes one space. `CollapseShape` and `CollapseSingleSpaced` state its output. |
| Address.Normalize | delivery_logic.py:6-14 | `normalize_address`: cut at the first comma, strip, expand " ST" and " AVE", collapse, strip, lower-case. `NormalizeShape`, `NormalizeIdempotent` and `NormalizeIgnoresAfterComma` state its properties. |
| Address.Lower | delivery_logic.py:14 | Lower-casing keeps the length and maps every character through ASCII lower-casing. |
| Address.BeforeComma | delivery_logic.py:8 | The text before the first comma has no comma. |
| Address.DropNonWord | delivery_logic.py:14 | Skipping a run of non-word characters never lengthens the text. The rest starts with a letter or digit, or is empty. |
| Address.CollapseShape | delivery_logic.py:14 | After non-word runs become single spaces, no two spaces are adjacent. |
| Address.StripLeftIsSuffix | delivery_logic.py:11-14 | Left strip returns a suffix that does not start with whitespace. |
| Address.StripRightIsPrefix | delivery_logic.py:11-14 | Right strip returns a prefix that does not end with whitespace. |
| Address.StripSingleSpaced | delivery_logic.py:14 | Stripping single-spaced text keeps it single-spaced and leaves no space at either end. |
| Address.SingleSpacedSlice | delivery_logic.py:14 | Any slice of single-spaced text is single-spaced. |
| Address.NormalizeShape | delivery_logic.py:6-14 | A normalized address has no leading or trailing space, no two adjacent spaces, and only lowercase letters, digits and spaces. |
| Address.BeforeCommaNoComma | delivery_logic.py:8 | Text without a comma is unchanged by cutting at the first comma. |
| Address.ReplaceAbsent | delivery_logic.py:11 | Replacing a pattern whose second character never occurs in the text leaves the text unchanged. This covers " ST" and " AVE" on text with no "S" or "A". |
| Address.CollapseSingleSpaced | delivery_logic.py:14 | Collapsing non-word runs leaves already single-spaced alphanumeric text unchanged. |
| Address.NormalizeFixedPoint | delivery_logic.py:6-14 | A string already in normal form is its own normalisation. |
| Address.NormalizeIdempotent | delivery_logic.py:6-14 | Normalising twice gives the same result as normalising once. |
| Address.BeforeCommaOfJoin | delivery_logic.py:8 | Cutting `street + "," + rest` at the first comma gives `street`. |
| Address.NormalizeIgnoresAfterComma | delivery_logic.py:6-14 | The normalised address depends only on the text before the first comma. |
| Address.AddressIndexOf | delivery_logic.py:58-65 | The map the loop leaves after the given rows, each row writing its normalized name and then its normalized address. `AddressIndexKeys` and `AddressIndexLastWins` state its keys and values. |
| Address.BuildAddressIndex | delivery_logic.py:58-65 | The loop builds the same map as the fold over the rows, which writes each row's normalized name and address under its index. |
| Address.AddressIndexHas | delivery_logic.py:58-65 | A row's normalized name or address is a key of the map. |
| Address.AddressIndexFrom | delivery_logic.py:58-65 | Every key of the map comes from some row's normalized name or address. |
| Address.AddressIndexKeys | delivery_logic.py:58-65 | A key is in the map iff some row's normalized name or address equals it. |
| Address.AddressIndexLastWins | delivery_logic.py:58-65 | A key maps to the index of the last row that has it. |
| Address.GetAddressIndex | delivery_logic.py:68-75 | Gives an index iff the normalized address is a key, and then the index stored under that key. |
| Address.GetAddressIndexOfNormalized | delivery_logic.py:68-75 | Looking up an already-normalized address gives the same answer as looking up the raw one. |
| Distances.Usable | delivery_logic.py:96 | A cell gives routing a distance exactly when it holds a finite number. |
| Distances.Mirror | delivery_logic.py:36-45 | A cell that is not `None` is kept, `inf` and `nan` included. A `None` cell takes its mirror. The cell stays `None` iff both are `None`. |
| Distances.MirrorSymmetric | delivery_logic.py:36-45 | When no mirrored pair with both cells given disagrees, the completed matrix is symmetric. |
| Distances.CompletedUsable | delivery_logic.py:36-45 | After completion a cell is usable exactly when it held a finite value, or was `None` and its mirror held one. An `inf` or `nan` cell stays unusable. |
| Distances.CompleteDistances | delivery_logic.py:36-45 | The two in-place passes leave every cell equal to `Mirror` of its old value and its mirror's old value. |
| Routing.HubIndex | delivery_logic.py:81 | The hub's location index: `get_address_index` of the hub address. |
| Routing.Route | delivery_logic.py:78-115 | The greedy route: scan for the first nearest package, append it, continue from its location over the rest. `RouteStep`, `RouteFromWork`, `RouteDistinct` and `RouteComplete` state its properties, and `NearestNeighbor` is proved to return it. |
| Routing.Target | delivery_logic.py:87-91 | A package's target index exists iff the package is found and its normalized address is mapped. |
| Routing.DistanceTo | delivery_logic.py:87-97 | A known distance from the cursor exists only for a package whose target lies inside the matrix. |
| Routing.Scan | delivery_logic.py:86-100 | A chosen candidate is a position in the work list, and its recorded distance is that package's distance from the cursor. |
| Routing.ScanFindsCandidate | delivery_logic.py:86-100 | The scan finds nothing iff no package in the work list has a known distance from the cursor. |
| Routing.ScanPicksFirstNearest | delivery_logic.py:86-100 | The scan's choice is no farther than any candidate and strictly nearer than every earlier one, so ties go to the first in list order. |
| Routing.ScanNearest | delivery_logic.py:86-100 | The inner loop's result equals the scan specification. |
| Routing.FirstIndex | delivery_logic.py:113 | The first position of a value holds that value, and no earlier position does. |
| Routing.RemoveFirst | delivery_logic.py:113 | `list.remove` shortens the list by one. |
| Routing.RemoveFirstMultiset | delivery_logic.py:113 | `list.remove` takes exactly one copy of the value away. |
| Routing.NearestNeighbor | delivery_logic.py:78-115 | The method starts at the hub, changes nothing, and returns `Route` of the truck's packages from the hub. |
| Routing.RouteAdvance | delivery_logic.py:102-113 | One iteration moves the scan's pick from the remaining packages to the end of the route, and keeps the route so far plus the rest of the route unchanged. |
| Routing.ScanStep | delivery_logic.py:86-100 | One more package extends the scan by a strictly shorter known distance or leaves it as it was. |
| Routing.RouteUnfold | delivery_logic.py:102-113 | An empty scan ends the route. Otherwise the route is the chosen package followed by the route from its stop over the rest. |
| Routing.RouteFromWork | delivery_logic.py:78-115 | The route is a sub-multiset of the truck's packages. So every element is on the truck and the route is no longer than the package list. |
| Routing.RouteOnlyResolvable | delivery_logic.py:87-91 | Every routed package was found and its address resolves. |
| Routing.RemoveFirstShifts | delivery_logic.py:113 | After `list.remove`, the entries before the removed one keep their positions and those after it move down by one. |
| Routing.RemoveFirstDistinct | delivery_logic.py:113 | Removing a value from a duplicate-free list leaves a duplicate-free list without it. |
| Routing.RouteDistinct | delivery_logic.py:78-115 | A duplicate-free package list gives a duplicate-free route. |
| Routing.DistinctCons | delivery_logic.py:107-113 | Prepending a value that is not in a duplicate-free list keeps it duplicate-free. |
| Routing.RouteStep | delivery_logic.py:83-113 | The route is empty iff no candidate exists. Otherwise it starts with the first nearest package and continues from that package's index. |
| Routing.RouteComplete | delivery_logic.py:78-115 | If every package resolves and every distance is known, the route has one entry per package. |
| Trucks.Drive | truck.py:16-26 | A leg adds the distance to mileage, advances the clock by distance/speed, and moves to the destination. |
| Trucks.DriveNeverGoesBack | truck.py:19-21 | With a non-negative distance and a positive speed, neither mileage nor clock decreases. |
| Trucks.HalfHourLeg | truck.py:20 | A 5-mile leg at speed 10 takes exactly half an hour. |
| Trucks.Truck.constructor | truck.py:5-13 | A new truck keeps its id, capacity, speed, packages and departure time. Its clock starts at the departure time. |
| Trucks.Truck.Deliver | truck.py:16-26 | For a package on the truck, the three fields advance as `Drive` says and the new clock is returned. Otherwise nothing changes and `None` is returned. |
| Trucks.Truck.ReturnToHub | truck.py:30-34 | Drives the leg back to "4001 South 700 East" and returns the new clock. |
| Delivery.DeliverStep | delivery_logic.py:129-165 | One route entry keeps the set of ids and leaves every other package untouched. The run is unchanged when it has already failed, the id is not on the truck, or the id is unknown. |
| Delivery.DeliverStepSkipsOrFails | delivery_logic.py:133-151 | For an entry on the truck with a record: if the truck's location or the destination does not resolve, nothing changes. If the distance is unknown, "En route" is written at the truck's clock, the run fails, and the truck stays where it was. |
| Delivery.DeliverStepStamps | delivery_logic.py:141-159 | For a leg that is driven, the package keeps its address. Its departure becomes the old clock and its delivery the new clock, with status Delivered. A zero clock counts as not given. |
| Delivery.DeliverStepDrive | delivery_logic.py:150-151 | A driven leg moves the truck by the distance between the two resolved indices. |
| Delivery.StatusAfterLeg | delivery_logic.py:141-159 | After a leg with positive clock and speed, the package reads At hub before the departure, En route until the delivery, and Delivered from then on. |
| Delivery.DeliverOne | delivery_logic.py:129-165 | One iteration of the route loop changes the truck and the registry exactly as `DeliverStep`. |
| Delivery.ReturnStep | delivery_logic.py:167-173 | The return leg never changes the registry. |
| Delivery.ReturnStepDrive | delivery_logic.py:167-171 | When the hub and the truck's location both resolve and the distance is known, the return leg drives that distance to the hub and the run stays ok. |
| Delivery.ReturnStepSkipsOrFails | delivery_logic.py:167-173 | The return leg is skipped when either end does not resolve. It fails, with the truck where it was, when the distance is unknown. |
| Delivery.ReturnStepAnyRecords | delivery_logic.py:167-173 | The return leg's effect on the truck does not depend on the registry it carries. |
| Delivery.ReturnLeg | delivery_logic.py:167-173 | The return to the hub changes the truck exactly as `ReturnStep` says. |
| Delivery.DeliverTruck | delivery_logic.py:126-173 | Processing one truck (skipping an empty one) leaves truck and registry as `RunTruck` states. |
| Delivery.RunRoute | delivery_logic.py:129-165 | The route loop of one truck: `DeliverStep` for each route entry in order. `RunRouteFrame`, `RunRouteMileage` and `CrashSticks` state its effect. |
| Delivery.RunTruck | delivery_logic.py:126-173 | One truck: skipped when empty, otherwise the route loop then the return leg. `TruckMileage` and `TruckLockStep` state its effect, and `DeliverTruck` is proved to follow it. |
| Delivery.CrashSticks | delivery_logic.py:129-165 | Once a leg crashes, the rest of the route changes nothing. |
| Delivery.RunRouteFrame | delivery_logic.py:129-165 | The route loop keeps the set of ids and changes no package that is off the route or off the truck. |
| Trucks.DriveKeepsEpoch | truck.py:19-21 | A leg keeps clock − mileage/speed fixed: the clock advances by exactly the leg's miles divided by the speed. |
| Trucks.EpochLockStep | truck.py:19-21 | Two views with the same clock − mileage/speed differ in clock by exactly their mileage difference divided by the speed. |
| Delivery.DeliverStepKeepsEpoch | delivery_logic.py:147-151 | One route step keeps clock − mileage/speed fixed. |
| Delivery.RunRouteKeepsEpoch | delivery_logic.py:129-165 | The whole route loop keeps clock − mileage/speed fixed. |
| Delivery.ReturnStepKeepsEpoch | delivery_logic.py:167-173 | The return leg keeps clock − mileage/speed fixed. |
| Delivery.TruckLockStep | delivery_logic.py:126-173 | For a whole truck run, return leg included, (clock gained) × speed equals mileage gained. |
| Delivery.DeliverStepForward | truck.py:19-21 | With non-negative distances and positive speed, a step never decreases mileage or clock. |
| Delivery.RunRouteForward | delivery_logic.py:129-165 | With non-negative distances and positive speed, the route loop never decreases mileage or clock. |
| Delivery.DeliverStepMileage | truck.py:19 | One route entry adds the distance of its leg to the mileage when the leg is driven, and nothing otherwise. |
| Delivery.RunRouteMileage | delivery_logic.py:129-165 | The route loop adds exactly the sum of the distances of the legs it drives. |
| Delivery.ReturnStepMileage | delivery_logic.py:167-173 | The return leg adds its distance when it is driven, and nothing otherwise. |
| Delivery.TruckMileage | delivery_logic.py:126-173 | A truck's mileage grows by the sum of its route legs plus the return leg, and not at all for an empty truck. |
| Delivery.TruckForward | delivery_logic.py:126-173 | The same holds for a whole truck run. |
| Delivery.RunFleet | delivery_logic.py:118-173 | The fleet run gives one final view per truck. |
| Delivery.FleetStep | delivery_logic.py:122-125 | The fleet run over the first j+1 trucks is the run over j followed by the next truck. |
| Delivery.FleetCrashSticks | delivery_logic.py:122-173 | After a crash, later trucks change neither the registry nor the earlier views. |
| Delivery.FleetAfterCrash | delivery_logic.py:122-173 | A crash fixes the registry, keeps the earlier trucks' views, and leaves every later truck as it was. |
| Delivery.FleetViewsAfterCrash | delivery_logic.py:122-173 | A truck after the crashing one keeps its starting view. |
| Delivery.FleetFrame | delivery_logic.py:118-173 | The fleet run keeps the set of ids and changes no package absent from the route. |
| Delivery.FleetSkipsEmptyTrucks | delivery_logic.py:126-127 | A truck with no packages ends exactly as it started. |
| Delivery.FleetForward | delivery_logic.py:118-173 | With non-negative distances and positive speeds, no truck's mileage or clock decreases. |
| Delivery.InsertByDepart | delivery_logic.py:120 | Inserting a truck adds exactly that truck to the multiset. |
| Delivery.SortByDepart | delivery_logic.py:120 | Sorting is a permutation of the trucks. |
| Delivery.InsertSorted | delivery_logic.py:120 | Inserting into a list sorted by departure time keeps it sorted. |
| Delivery.SortByDepartSorted | delivery_logic.py:120 | The sorted list is in ascending departure order and is a permutation of the input. |
| Delivery.TwoCopies | delivery_logic.py:120 | Two equal entries at different positions give a count of at least two. |
| Delivery.DistinctByCount | delivery_logic.py:120 | A list in which every truck occurs at most once has no duplicates. |
| Delivery.CountOfDistinct | delivery_logic.py:120 | A duplicate-free list counts every truck at most once. |
| Delivery.SortKeepsDistinct | delivery_logic.py:120-127 | Sorting distinct trucks gives distinct trucks, so each truck is visited exactly once. |
| Delivery.Infos | delivery_logic.py:120-127 | Takes one snapshot per truck, position by position. |
| Delivery.TurnAdvances | delivery_logic.py:124-173 | When a truck ends as `RunTruck` says, the fleet run covers one more truck; after a crash it is over, with every later truck untouched. |
| Delivery.Turn | delivery_logic.py:125-173 | Processing the next truck in order extends the fleet run by one truck, or ends it as failed. |
| Delivery.DeliverSorted | delivery_logic.py:122-173 | The pair loop over the sorted trucks leaves the registry, the success flag and every truck's view equal to `RunFleet`. |
| Delivery.DeliverPair | delivery_logic.py:122-125 | One pair `sorted_trucks[i:i+2]` extends the fleet run by up to two trucks, or ends it as failed. |
| Delivery.DeliverPackages | delivery_logic.py:118-173 | `deliver_packages` sorts by departure time, then runs every truck once in that order. The result equals `RunFleet` over the sorted trucks. |
| Delivery.TotalMileage | delivery_logic.py:176-177 | `sum(truck.mileage for truck in trucks)`. `TotalMileageConcat` and `TotalMileagePermutation` state that it does not depend on order. |
| Delivery.TotalMileageConcat | delivery_logic.py:176-177 | The total of two lists joined is the sum of their totals. |
| Delivery.TotalMileagePermutation | delivery_logic.py:176-177 | Any two orderings of the same trucks have the same total. |
| Delivery.TotalMileageSorted | delivery_logic.py:176-177 | The total over the departure-sorted trucks equals the total in the given order. |
| Findings.AsWrittenPassesEveryParsedTime | hash_table.py:111-123 | As written, every departure that came from text passes the 10:20 comparison. |
| Findings.AsWrittenCounterexample | hash_table.py:111-123 | A "9:00:00" text departure passes the written comparison but not the intended one. |
| Findings.AsWrittenCompare | hash_table.py:111-123 | The written comparison raises exactly for an offset before year 1 or past year 9999. Otherwise its outcome is the comparison of the instant with 0001-01-01 10:20. |
| Findings.OffsetsAgree | hash_table.py:111-123 | For offset departures the written and the intended comparison agree wherever the written one does not raise, and it never raises for an offset within one day. |
| Findings.NegativeOffsetOverflows | hash_table.py:110-116 | For package 9 with a new address and a departure offset of −1 hour, the written comparison raises. The model's update instead returns the record with the departure written and the address kept. |
| Findings.ModelFollowsIntendedRule | hash_table.py:110-134 | The model writes package 9's new address exactly when the departure's time of day has reached 10:20. |

## Left out

- File loading is left out: `load_package_data`, the file part of `load_distance_data` and the `open`/`next` part of `load_address_data`. The completion and the index fold work on in-memory inputs.
- `print_all_packages`, `Truck.__str__`, the message strings and the warning prints are left out. Results are enums and `Option`s instead.
- main.py is not part of this model: the menu, the scripted run and the hard-coded trucks.
- Python's built-in `hash` is a parameter, since it is randomized per process.
- Floating point and `timedelta` truncation to microseconds are left out: times and distances are exact reals.
- Registry.PackageTable.CheckPackageStatus requires an explicit check time. The `datetime.now()` default reads the wall clock.
- Registry.ResolveStatus uses one time axis, the time of day. check_package_status dates an offset stamp at the check time's own date, but keeps a stamp that came from text as strptime's 1900-01-01 datetime. Comparing such a stamp with a check time on another date is not modelled; only the offset case is on that axis.
- Address.Normalize handles ASCII only. The Unicode meaning of `\W` and `str.lower` is not modelled.
- Routing.NearestNeighbor requires the hub address to resolve and the matrix to hold every index the address map mentions, with rows as long as the matrix. The source raises only when it reads a missing entry. An unresolved hub raises only once some package resolves. An out-of-range index raises only when that cell is read. An empty truck, or one with no resolvable package, gets `[]` in every case. Those inputs are outside the model.
- Distances.Cell does not model `-inf`. The source would choose a `-inf` cell as nearest and then raise in `timedelta`; the model's `Usable` treats `-inf` like `inf`.
- Distances.CompleteDistances works on a square `array2`. The source's rows may be ragged, and then a mirror read past a short row raises IndexError.
- Negative indices in the address map are excluded by typing it `map<string, nat>`. Python would index from the end.
- Registry.NewRecord and Registry.PackageTable.Insert require non-empty `package_data`. Python raises IndexError on `package_data[0]` (hash_table.py:18), and that error path is not modelled.
- Registry.PackageTable.constructor requires a positive size. Python would raise on `hash % 0`.
- Trucks.Truck.Deliver requires a nonzero speed only for a package on the truck, the one case where it divides. Trucks.Truck.ReturnToHub always divides, so it requires a nonzero speed. Python would raise on division by zero.
- Delivery.DeliverPackages requires the trucks to be distinct objects with nonzero speeds. The same truck listed twice is not modelled.
- Delivery.DeliverPackages, Delivery.DeliverStep, Delivery.RunRoute, Delivery.ReturnStep, Delivery.RunTruck and Delivery.RunFleet require the matrix to be square and to hold every index the address map mentions. The source reads `distances[from][to]` only for pairs that resolve, so it runs with an index past the matrix or a short row as long as that cell is never read. Those inputs are outside the model.
- Delivery.SortByDepart proves sortedness and permutation, but not the stability of Python's `sorted` among trucks with equal departure times.
- Delivery.DeliverStep: when a leg crashes, the model stops with the truck's old view. The source may first add an infinite distance to the mileage; mileage after a crash is not modelled.
- Registry.ApplyUpdate, Registry.CutoffRule and Registry.PackageTable.UpdatePackageDetails: for package 9 with a new address, a negative departure offset (or one past year 9999) makes the source raise OverflowError at `datetime.min + current_time` (hash_table.py:114-116). The model returns the record with the address kept instead; Findings.NegativeOffsetOverflows exhibits the case. Stamps parsed from text lie in `[0, 24)` and never reach it.
- Registry.BackfillRequest matches on the resolved status value. The source matches the message text for "en route" or "delivered", so a package id that itself contains one of those words could trigger a backfill; the model does not capture that.
- The `current_location is None` break in `nearest_neighbor` (delivery_logic.py:110-112) is unreachable, because a chosen package always has an index. The model does not keep it.
- Clock.ParseClock reads ASCII digits only. strptime's `\d` and `int()` also accept other Unicode decimal digits, so a time such as "١٠:٢٠:٠٠" parses in Python and gives None in the model. Whitespace skipping and other directives are not modelled either.

## Findings

| source | as written | input that shows it | evidently intended | confidence | as-written member | corrected member |
|---|---|---|---|---|---|---|
| hash_table.py:111-123 | A departure supplied as text is parsed by strptime into a `datetime` dated 1900-01-01. It is then compared against a cutoff of 10:20 on 0001-01-01 (`datetime.min`). | package "9", new address, departure "9:00:00" | Compare the departure's time of day with 10:20, so that a 09:00 departure keeps the old address | medium, not executed | Findings.AsWrittenCounterexample | Findings.ModelFollowsIntendedRule |
