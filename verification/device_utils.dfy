/** Device and queue-family choice (DeviceUtils.h). The driver's answers
    (device types, queue-family flags, per-family surface support) are
    inputs. */
module DeviceUtils {
  import opened Results
  import opened VkUtils
  import opened Containers

  // ---------------------------------------------------------------------
  // Physical device

  datatype PhysicalDeviceType = Other | IntegratedGpu | DiscreteGpu | VirtualGpu | Cpu

  /** A physical device as the enumeration reports it, with the type its
      properties give. */
  datatype PhysicalDevice = PhysicalDevice(deviceName: string, deviceType: PhysicalDeviceType)

  predicate IsDiscrete(d: PhysicalDevice)
  {
    d.deviceType == DiscreteGpu
  }

  /** `getOptimalPhysicalDevice`: erase every device that is not a discrete
      GPU from the enumerated list, then take the front. The source does not
      guard the empty case (`front()` on an empty vector is undefined), so a
      discrete GPU must be present. */
  method OptimalPhysicalDevice(devices: seq<PhysicalDevice>) returns (device: PhysicalDevice)
    requires exists k :: 0 <= k < |devices| && IsDiscrete(devices[k])
    ensures IsDiscrete(device)
    ensures exists k :: 0 <= k < |devices| && devices[k] == device &&
              forall j :: 0 <= j < k ==> !IsDiscrete(devices[j])
  {
    var physicalDevices := new PhysicalDevice[|devices|](i requires 0 <= i < |devices| => devices[i]);
    assert physicalDevices[..] == devices;
    var notDiscrete := (d: PhysicalDevice) => d.deviceType != DiscreteGpu;
    var len := EraseIf(physicalDevices, notDiscrete);
    ghost var first := 0;
    while !IsDiscrete(devices[first])
      invariant first < |devices|
      invariant forall j :: 0 <= j < first ==> !IsDiscrete(devices[j])
      invariant exists k :: first <= k < |devices| && IsDiscrete(devices[k])
      decreases |devices| - first
    {
      first := first + 1;
    }
    ErasedHead(devices, notDiscrete, first);
    device := physicalDevices[0];
  }

  // ---------------------------------------------------------------------
  // Queue families

  /** `VK_QUEUE_GRAPHICS_BIT`. */
  const QUEUE_GRAPHICS_BIT: bv32 := 1

  /** A queue family's flags, and whether the driver says it can present to
      the surface (`getSurfaceSupportKHR(i, surface)`). */
  datatype QueueFamily = QueueFamily(queueFlags: bv32, surfaceSupport: bool)

  datatype Role = Graphics | Present

  predicate Has(f: QueueFamily, role: Role)
  {
    match role
    case Graphics => f.queueFlags & QUEUE_GRAPHICS_BIT != 0
    case Present => f.surfaceSupport
  }

  /** The last even index below `k` whose family has `role`, or the family
      count when there is none: what the scan has recorded for `role` after
      examining indices 0, 2, 4, ... below `k`. */
  function LastWith(fs: seq<QueueFamily>, role: Role, k: nat): (r: nat)
    ensures r == |fs| || (r < k && r < |fs| && r % 2 == 0 && Has(fs[r], role))
    decreases k
  {
    if k == 0 then |fs|
    else if k - 1 < |fs| && (k - 1) % 2 == 0 && Has(fs[k - 1], role) then k - 1
    else LastWith(fs, role, k - 1)
  }

  /** No even index below `k` with `role` comes after the recorded one, and
      "not found" means no even index below `k` has `role`. */
  lemma {:induction false} LastWithIsLast(fs: seq<QueueFamily>, role: Role, k: nat, j: nat)
    requires j < k && j < |fs| && j % 2 == 0 && Has(fs[j], role)
    ensures j <= LastWith(fs, role, k) < |fs|
  {
    if j < k - 1 {
      LastWithIsLast(fs, role, k - 1, j);
    }
  }

  /** After examining even index `k`, the two recorded indices agree. */
  predicate Tie(fs: seq<QueueFamily>, k: nat)
  {
    LastWith(fs, Graphics, k + 1) == LastWith(fs, Present, k + 1)
  }

  /** One past the last index the scan examines when it resumes at even
      index `i`: it stops right after the first even index with a tie, or at
      the family count. */
  function ScanEndFrom(fs: seq<QueueFamily>, i: nat): (r: nat)
    requires i % 2 == 0
    ensures r <= |fs|
    decreases |fs| - i
  {
    if i >= |fs| then |fs|
    else if Tie(fs, i) then i + 1
    else ScanEndFrom(fs, i + 2)
  }

  /** Resumed at even `i`, the scan examines every even index up to the
      first tie at or after `i`, and stops right after that tie; without a
      tie it runs to the family count. */
  lemma {:induction false} ScanEndFromFirstTie(fs: seq<QueueFamily>, i: nat)
    requires i % 2 == 0
    ensures forall j :: i <= j && j % 2 == 0 && j + 1 < ScanEndFrom(fs, i) ==> !Tie(fs, j)
    ensures ScanEndFrom(fs, i) < |fs| ==>
              i < ScanEndFrom(fs, i) && (ScanEndFrom(fs, i) - 1) % 2 == 0 && Tie(fs, ScanEndFrom(fs, i) - 1)
    ensures ScanEndFrom(fs, i) == |fs| ==> forall j :: i <= j && j % 2 == 0 && j + 1 < |fs| ==> !Tie(fs, j)
    decreases |fs| - i
  {
    if i < |fs| && !Tie(fs, i) {
      ScanEndFromFirstTie(fs, i + 2);
    }
  }

  function ScanEnd(fs: seq<QueueFamily>): nat
  {
    ScanEndFrom(fs, 0)
  }

  /** The graphics and present indices the scan has recorded when it stops;
      the family count stands for "not found". */
  function RecordedIndex(fs: seq<QueueFamily>, role: Role): nat
  {
    LastWith(fs, role, ScanEnd(fs))
  }

  /** A recorded index as `nullopt` for "not found" or the index itself. */
  function AsOptional(x: nat, count: nat): Option<u32>
    requires x <= count < TWO_POW_32
  {
    if x == count then None else Some(x as u32)
  }

  /** One of the two insertions at the end of the scan, as written: a found
      role inserts `{idx}`, one element; an unfound role inserts `{}`, and the
      empty braces select the initializer-list overload of `std::set::insert`,
      which inserts nothing, rather than a value-initialised `nullopt`. */
  function InsertAsWritten(s: seq<Option<u32>>, x: nat, count: nat): (r: seq<Option<u32>>)
    requires Ascending(s) && x <= count < TWO_POW_32
    ensures Ascending(r)
    ensures x == count ==> r == s
    ensures x < count ==> forall y :: y in r <==> y in s || y == Some(x as u32)
  {
    if x == count then s else Insert(s, Some(x as u32))
  }

  /** The set `getGraphicsAndPresentQueueFamilyIndices` returns, in
      iteration order. */
  function QueueFamilyIndexSet(fs: seq<QueueFamily>): (r: seq<Option<u32>>)
    requires |fs| < UINT32_MAX as int
    ensures Ascending(r) && None !in r
  {
    var g := InsertAsWritten([], RecordedIndex(fs, Graphics), |fs|);
    InsertAsWritten(g, RecordedIndex(fs, Present), |fs|)
  }

  /** The two insertions as evidently intended: an unfound role inserts
      `nullopt`, which `pickDevice` checks for. The set then has one or two
      elements, holds `nullopt` exactly when a role is unfound, and holds each
      recorded index. */
  function IndexSetWithNullopt(g: nat, p: nat, count: nat): (r: seq<Option<u32>>)
    requires g <= count && p <= count && count < TWO_POW_32
    ensures Ascending(r) && 1 <= |r| <= 2
    ensures |r| == 1 <==> g == p
    ensures None in r <==> g == count || p == count
    ensures AsOptional(g, count) in r && AsOptional(p, count) in r
    ensures forall y :: y in r ==> y == AsOptional(g, count) || y == AsOptional(p, count)
  {
    Insert(Insert([], AsOptional(g, count)), AsOptional(p, count))
  }

  /** One step of the scan at even index `k`: the recorded indices move to
      `k` for the roles family `k` has, odd index `k + 1` changes nothing, and
      the scan ends after `k` exactly on a tie. */
  lemma ScanStep(fs: seq<QueueFamily>, k: nat)
    requires k % 2 == 0 && k < |fs|
    ensures LastWith(fs, Graphics, k + 1) == if Has(fs[k], Graphics) then k else LastWith(fs, Graphics, k)
    ensures LastWith(fs, Present, k + 1) == if Has(fs[k], Present) then k else LastWith(fs, Present, k)
    ensures LastWith(fs, Graphics, k + 2) == LastWith(fs, Graphics, k + 1)
    ensures LastWith(fs, Present, k + 2) == LastWith(fs, Present, k + 1)
    ensures Tie(fs, k) ==> ScanEndFrom(fs, k) == k + 1
    ensures !Tie(fs, k) ==> ScanEndFrom(fs, k) == ScanEndFrom(fs, k + 2)
  {
  }

  /** Running off the end at `|fs|` or `|fs| + 1` examines nothing more. */
  lemma ScanExit(fs: seq<QueueFamily>, k: nat)
    requires k % 2 == 0 && |fs| <= k <= |fs| + 1
    ensures ScanEndFrom(fs, k) == |fs|
    ensures LastWith(fs, Graphics, k) == LastWith(fs, Graphics, |fs|)
    ensures LastWith(fs, Present, k) == LastWith(fs, Present, |fs|)
  {
  }

  /** `getGraphicsAndPresentQueueFamilyIndices`. The counter is incremented
      both in the body and at the loop head, so only even indices are
      examined; each role keeps the last examined index that has it; the
      loop stops as soon as the two recorded indices are equal, which
      includes both still being "not found". A count of exactly
      `0xFFFFFFFF` would make the 32-bit counter wrap, hence the bound. */
  method GraphicsAndPresentQueueFamilyIndices(families: seq<QueueFamily>)
    returns (indices: seq<Option<u32>>)
    requires |families| < UINT32_MAX as int
    ensures indices == QueueFamilyIndexSet(families)
  {
    var count := Size(families);
    var graphicsQueueFamilyIndex: u32 := count;
    var presentQueueFamilyIndex: u32 := count;
    var i: u32 := 0;
    while i < count
      invariant i as int % 2 == 0 && i as int <= |families| + 1
      invariant graphicsQueueFamilyIndex as int == LastWith(families, Graphics, i as int)
      invariant presentQueueFamilyIndex as int == LastWith(families, Present, i as int)
      invariant ScanEndFrom(families, i as int) == ScanEnd(families)
    {
      ghost var k := i as int;
      if families[i].queueFlags & QUEUE_GRAPHICS_BIT != 0 {
        graphicsQueueFamilyIndex := i;
      }
      if families[i].surfaceSupport {
        presentQueueFamilyIndex := i;
      }
      ScanStep(families, k);
      if graphicsQueueFamilyIndex == presentQueueFamilyIndex {
        break;
      }
      i := i + 1;
      i := i + 1;
    }
    if i >= count {
      ScanExit(families, i as int);
    }
    assert graphicsQueueFamilyIndex as int == RecordedIndex(families, Graphics);
    assert presentQueueFamilyIndex as int == RecordedIndex(families, Present);
    indices := [];
    indices := InsertAsWritten(indices, graphicsQueueFamilyIndex as nat, count as nat);
    indices := InsertAsWritten(indices, presentQueueFamilyIndex as nat, count as nat);
  }

  // ---------------------------------------------------------------------
  // What the scan promises

  /** Each recorded index is "not found" or an even, examined index whose
      family has the role; and it is the last examined index with the role,
      so "not found" means no examined index has it. */
  lemma RecordedIndexIsLastExamined(fs: seq<QueueFamily>, role: Role)
    ensures var r := RecordedIndex(fs, role);
            r == |fs| || (r < ScanEnd(fs) && r % 2 == 0 && Has(fs[r], role))
    ensures forall j :: 0 <= j < ScanEnd(fs) && j % 2 == 0 && Has(fs[j], role) ==>
              j <= RecordedIndex(fs, role) < |fs|
  {
    forall j | 0 <= j < ScanEnd(fs) && j % 2 == 0 && Has(fs[j], role)
      ensures j <= RecordedIndex(fs, role) < |fs|
    {
      LastWithIsLast(fs, role, ScanEnd(fs), j);
    }
  }

  /** The scan stops right after the first even index where the two
      recorded indices agree, or runs to the family count if there is none. */
  lemma ScanStopsAtFirstTie(fs: seq<QueueFamily>)
    ensures forall j :: 0 <= j && j % 2 == 0 && j + 1 < ScanEnd(fs) ==> !Tie(fs, j)
    ensures ScanEnd(fs) < |fs| ==> (ScanEnd(fs) - 1) % 2 == 0 && Tie(fs, ScanEnd(fs) - 1)
  {
    ScanEndFromFirstTie(fs, 0);
  }

  /** If family 0 has neither capability, both roles are still "not found"
      after examining it, which counts as agreement: the scan stops at once.
      Both insertions then add nothing and the set is empty, where the
      intended insertions would have given `{nullopt}`. */
  lemma NeitherAtZeroStopsAtOnce(fs: seq<QueueFamily>)
    requires 0 < |fs| < UINT32_MAX as int
    requires !Has(fs[0], Graphics) && !Has(fs[0], Present)
    ensures ScanEnd(fs) == 1
    ensures QueueFamilyIndexSet(fs) == []
    ensures IndexSetWithNullopt(RecordedIndex(fs, Graphics), RecordedIndex(fs, Present), |fs|) == [None]
  {
  }

  /** The set never holds `nullopt`. It holds each recorded index that was
      found, and at most two elements: none exactly when both roles are
      unfound, two exactly when both were found at different indices. Every
      value in it is an even family index below the count whose family has a
      role. */
  lemma QueueFamilyIndexSetShape(fs: seq<QueueFamily>)
    requires |fs| < UINT32_MAX as int
    ensures var r := QueueFamilyIndexSet(fs);
            var g := RecordedIndex(fs, Graphics);
            var p := RecordedIndex(fs, Present);
            None !in r && |r| <= 2 &&
            (r == [] <==> g == |fs| && p == |fs|) &&
            (|r| == 2 <==> g != |fs| && p != |fs| && g != p) &&
            (g < |fs| ==> Some(g as u32) in r) &&
            (p < |fs| ==> Some(p as u32) in r)
    ensures forall k :: 0 <= k < |QueueFamilyIndexSet(fs)| ==>
              var v := QueueFamilyIndexSet(fs)[k].value as int;
              v < |fs| && v % 2 == 0 && (Has(fs[v], Graphics) || Has(fs[v], Present))
  {
  }

  /** Two recorded indices agree on families that agree at every even index. */
  lemma {:induction false} LastWithReadsEvenOnly(fs: seq<QueueFamily>, gs: seq<QueueFamily>, role: Role, k: nat)
    requires |fs| == |gs|
    requires forall j :: 0 <= j < |fs| && j % 2 == 0 ==> fs[j] == gs[j]
    ensures LastWith(fs, role, k) == LastWith(gs, role, k)
  {
    if k > 0 {
      LastWithReadsEvenOnly(fs, gs, role, k - 1);
    }
  }

  lemma {:induction false} ScanEndReadsEvenOnly(fs: seq<QueueFamily>, gs: seq<QueueFamily>, i: nat)
    requires i % 2 == 0
    requires |fs| == |gs|
    requires forall j :: 0 <= j < |fs| && j % 2 == 0 ==> fs[j] == gs[j]
    ensures ScanEndFrom(fs, i) == ScanEndFrom(gs, i)
    decreases |fs| - i
  {
    if i < |fs| {
      LastWithReadsEvenOnly(fs, gs, Graphics, i + 1);
      LastWithReadsEvenOnly(fs, gs, Present, i + 1);
      ScanEndReadsEvenOnly(fs, gs, i + 2);
    }
  }

  /** Only even indices are examined: families that differ only at odd
      indices yield the same set. */
  lemma OddFamiliesIgnored(fs: seq<QueueFamily>, gs: seq<QueueFamily>)
    requires |fs| == |gs| < UINT32_MAX as int
    requires forall j :: 0 <= j < |fs| && j % 2 == 0 ==> fs[j] == gs[j]
    ensures QueueFamilyIndexSet(fs) == QueueFamilyIndexSet(gs)
  {
    ScanEndReadsEvenOnly(fs, gs, 0);
    LastWithReadsEvenOnly(fs, gs, Graphics, ScanEnd(fs));
    LastWithReadsEvenOnly(fs, gs, Present, ScanEnd(fs));
  }

  /** Family 2 serving both roles, with no earlier family serving both:
      the scan stops there and the set is `{2}`. */
  lemma SharedFamilyAtTwo()
    ensures var fs := [QueueFamily(QUEUE_GRAPHICS_BIT, false), QueueFamily(0, true),
                       QueueFamily(QUEUE_GRAPHICS_BIT, true), QueueFamily(QUEUE_GRAPHICS_BIT, true)];
            ScanEnd(fs) == 3 && QueueFamilyIndexSet(fs) == [Some(2)]
  {
    var fs := [QueueFamily(QUEUE_GRAPHICS_BIT, false), QueueFamily(0, true),
               QueueFamily(QUEUE_GRAPHICS_BIT, true), QueueFamily(QUEUE_GRAPHICS_BIT, true)];
    assert LastWith(fs, Graphics, 1) == 0;
    assert LastWith(fs, Present, 1) == 4;
    assert !Tie(fs, 0);
    assert LastWith(fs, Graphics, 3) == 2;
    assert LastWith(fs, Present, 3) == 2;
    assert Tie(fs, 2);
    assert ScanEndFrom(fs, 2) == 3;
    assert ScanEnd(fs) == 3;
    assert RecordedIndex(fs, Graphics) == 2 && RecordedIndex(fs, Present) == 2;
  }

  /** Graphics only at family 0 and presentation only at family 3: the
      present family sits at an odd index and is never examined, the unfound
      present role inserts nothing, and the set comes out as `{0}`. The
      renderer takes both its graphics and its present family from that set,
      so it presents from family 0, which cannot present. */
  lemma OddPresentFamilyMissed()
    ensures var fs := [QueueFamily(QUEUE_GRAPHICS_BIT, false), QueueFamily(0, false),
                       QueueFamily(0, false), QueueFamily(0, true)];
            Has(fs[3], Present) && !Has(fs[0], Present) &&
            QueueFamilyIndexSet(fs) == [Some(0)]
  {
    var fs := [QueueFamily(QUEUE_GRAPHICS_BIT, false), QueueFamily(0, false),
               QueueFamily(0, false), QueueFamily(0, true)];
    assert LastWith(fs, Graphics, 1) == 0;
    assert LastWith(fs, Present, 1) == 4;
    assert !Tie(fs, 0);
    assert LastWith(fs, Graphics, 3) == 0;
    assert LastWith(fs, Present, 3) == 4;
    assert !Tie(fs, 2);
    assert ScanEndFrom(fs, 4) == 4;
    assert ScanEndFrom(fs, 2) == 4;
    assert ScanEnd(fs) == 4;
    assert LastWith(fs, Graphics, 4) == 0;
    assert LastWith(fs, Present, 4) == 4;
    assert RecordedIndex(fs, Graphics) == 0 && RecordedIndex(fs, Present) == 4;
    assert Insert([], Some(0)) == [Some(0)];
  }

  /** Both roles, as a predicate on one family. */
  predicate ServesBoth(f: QueueFamily)
  {
    Has(f, Graphics) && Has(f, Present)
  }

  /** The last index below `k`, of either parity, whose family has `role`, or
      the family count when there is none. */
  function LastAny(fs: seq<QueueFamily>, role: Role, k: nat): (r: nat)
    requires k <= |fs|
    ensures r == |fs| || (r < k && Has(fs[r], role))
  {
    if k == 0 then |fs|
    else if Has(fs[k - 1], role) then k - 1
    else LastAny(fs, role, k - 1)
  }

  /** No index below `k` with `role` comes after the one `LastAny` finds. */
  lemma {:induction false} LastAnyIsLast(fs: seq<QueueFamily>, role: Role, k: nat, j: nat)
    requires k <= |fs| && j < k && Has(fs[j], role)
    ensures j <= LastAny(fs, role, k) < |fs|
  {
    if j < k - 1 {
      LastAnyIsLast(fs, role, k - 1, j);
    }
  }

  /** The first index at or after `i` whose family serves both roles, or the
      family count when there is none. */
  function FirstServingBoth(fs: seq<QueueFamily>, i: nat): (r: nat)
    ensures r == |fs| || (i <= r < |fs| && ServesBoth(fs[r]))
    decreases |fs| - i
  {
    if i >= |fs| then |fs|
    else if ServesBoth(fs[i]) then i
    else FirstServingBoth(fs, i + 1)
  }

  /** No family between `i` and the one `FirstServingBoth` finds serves both
      roles. */
  lemma {:induction false} FirstServingBothIsFirst(fs: seq<QueueFamily>, i: nat, j: nat)
    requires i <= j < FirstServingBoth(fs, i)
    ensures !ServesBoth(fs[j])
    decreases |fs| - i
  {
    if i < j {
      FirstServingBothIsFirst(fs, i + 1, j);
    }
  }

  /** The set the scan evidently intends: the first family serving both
      roles, for both; with none, each role's last family, and `nullopt` for
      a role no family has. */
  function IntendedIndexSet(fs: seq<QueueFamily>): (r: seq<Option<u32>>)
    requires |fs| < UINT32_MAX as int
    ensures Ascending(r) && 1 <= |r| <= 2
  {
    var both := FirstServingBoth(fs, 0);
    if both < |fs| then [Some(both as u32)]
    else IndexSetWithNullopt(LastAny(fs, Graphics, |fs|), LastAny(fs, Present, |fs|), |fs|)
  }

  /** `nullopt` is in the intended set exactly when no family has some role;
      otherwise some element's family has graphics and some element's family
      presents. The first family serving both roles is chosen for both, and
      every value in the set is a family with a role. */
  lemma IntendedIndexSetShape(fs: seq<QueueFamily>)
    requires |fs| < UINT32_MAX as int
    ensures None in IntendedIndexSet(fs) <==>
              (forall k :: 0 <= k < |fs| ==> !Has(fs[k], Graphics)) ||
              (forall k :: 0 <= k < |fs| ==> !Has(fs[k], Present))
    ensures None !in IntendedIndexSet(fs) ==>
              (exists v: u32 :: Some(v) in IntendedIndexSet(fs) && v as int < |fs| && Has(fs[v], Graphics)) &&
              (exists v: u32 :: Some(v) in IntendedIndexSet(fs) && v as int < |fs| && Has(fs[v], Present))
    ensures forall k :: 0 <= k < |fs| && ServesBoth(fs[k]) && (forall j :: 0 <= j < k ==> !ServesBoth(fs[j]))
              ==> IntendedIndexSet(fs) == [Some(k as u32)]
    ensures forall k :: 0 <= k < |IntendedIndexSet(fs)| && IntendedIndexSet(fs)[k].Some? ==>
              var v := IntendedIndexSet(fs)[k].value as int;
              v < |fs| && (Has(fs[v], Graphics) || Has(fs[v], Present))
  {
    var both := FirstServingBoth(fs, 0);
    var g, p := LastAny(fs, Graphics, |fs|), LastAny(fs, Present, |fs|);
    forall k | 0 <= k < |fs| && ServesBoth(fs[k]) && (forall j :: 0 <= j < k ==> !ServesBoth(fs[j]))
      ensures both == k
    {
      if k < both {
        FirstServingBothIsFirst(fs, 0, k);
      }
    }
    if both == |fs| {
      forall k | 0 <= k < |fs| && Has(fs[k], Graphics) ensures g < |fs| {
        LastAnyIsLast(fs, Graphics, |fs|, k);
      }
      forall k | 0 <= k < |fs| && Has(fs[k], Present) ensures p < |fs| {
        LastAnyIsLast(fs, Present, |fs|, k);
      }
      if None !in IntendedIndexSet(fs) {
        assert Some(g as u32) in IntendedIndexSet(fs) && Has(fs[g], Graphics);
        assert Some(p as u32) in IntendedIndexSet(fs) && Has(fs[p], Present);
      }
    } else {
      assert Some(both as u32) in IntendedIndexSet(fs) && ServesBoth(fs[both]);
    }
  }

  /** The scan as evidently intended: every index examined once, in order;
      each role keeps the last family that has it; the scan stops at a
      family that serves both roles, not when both are still unfound; and an
      unfound role inserts `nullopt`. */
  method IntendedQueueFamilyIndices(families: seq<QueueFamily>) returns (indices: seq<Option<u32>>)
    requires |families| < UINT32_MAX as int
    ensures indices == IntendedIndexSet(families)
  {
    var count := Size(families);
    var graphicsQueueFamilyIndex: u32 := count;
    var presentQueueFamilyIndex: u32 := count;
    var i: u32 := 0;
    while i < count
      invariant i <= count
      invariant graphicsQueueFamilyIndex as int == LastAny(families, Graphics, i as int)
      invariant presentQueueFamilyIndex as int == LastAny(families, Present, i as int)
      invariant FirstServingBoth(families, i as int) == FirstServingBoth(families, 0)
    {
      if families[i].queueFlags & QUEUE_GRAPHICS_BIT != 0 {
        graphicsQueueFamilyIndex := i;
      }
      if families[i].surfaceSupport {
        presentQueueFamilyIndex := i;
      }
      if graphicsQueueFamilyIndex == presentQueueFamilyIndex && graphicsQueueFamilyIndex != count {
        break;
      }
      i := i + 1;
    }
    if i < count && graphicsQueueFamilyIndex < i {
      FirstServingBothIsFirst(families, 0, graphicsQueueFamilyIndex as int);
    }
    indices := [];
    indices := Insert(indices, if graphicsQueueFamilyIndex != count then Some(graphicsQueueFamilyIndex) else None);
    indices := Insert(indices, if presentQueueFamilyIndex != count then Some(presentQueueFamilyIndex) else None);
  }

  /** The intended scan finds the present family at odd index 3 that the
      scan as written misses, and gives `{0, 3}`. */
  lemma IntendedFindsOddPresentFamily()
    ensures var fs := [QueueFamily(QUEUE_GRAPHICS_BIT, false), QueueFamily(0, false),
                       QueueFamily(0, false), QueueFamily(0, true)];
            IntendedIndexSet(fs) == [Some(0), Some(3)]
  {
    var fs := [QueueFamily(QUEUE_GRAPHICS_BIT, false), QueueFamily(0, false),
               QueueFamily(0, false), QueueFamily(0, true)];
    assert FirstServingBoth(fs, 3) == 4;
    assert FirstServingBoth(fs, 0) == 4;
    assert LastAny(fs, Graphics, 1) == 0;
    assert LastAny(fs, Graphics, 2) == 0;
    assert LastAny(fs, Graphics, 3) == 0;
    assert LastAny(fs, Graphics, 4) == 0;
    assert LastAny(fs, Present, 4) == 3;
  }
}
