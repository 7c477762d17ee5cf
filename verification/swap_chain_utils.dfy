/** Swap-chain parameter choice (SwapChainUtils.h): the surface format,
    the swap extent and the present mode, picked from the capabilities a
    device reports for a surface. The driver query that fills
    `SwapChainSupportDetails` is not modelled; the record is an input. */
module SwapChainUtils {
  import opened VkUtils

  // ---------------------------------------------------------------------
  // Data

  /** Enum values of `VkFormat` and `VkColorSpaceKHR`, as the API numbers them. */
  const FORMAT_B8G8R8A8_UNORM: nat := 44
  const COLOR_SPACE_SRGB_NONLINEAR: nat := 0

  datatype SurfaceFormat = SurfaceFormat(format: nat, colorSpace: nat)

  datatype Extent2D = Extent2D(width: u32, height: u32)

  /** The fields of `vk::SurfaceCapabilitiesKHR` that the choice reads. */
  datatype SurfaceCapabilities = SurfaceCapabilities(
    currentExtent: Extent2D,
    minImageExtent: Extent2D,
    maxImageExtent: Extent2D)

  /** `vk::PresentModeKHR`; the last two are the modes of the shared
      presentable image extension, which the priority table does not list. */
  datatype PresentMode =
    | Immediate | Mailbox | Fifo | FifoRelaxed
    | SharedDemandRefresh | SharedContinuousRefresh

  datatype SwapChainSupportDetails = SwapChainSupportDetails(
    capabilities: SurfaceCapabilities,
    formats: seq<SurfaceFormat>,
    presentModes: seq<PresentMode>)

  // ---------------------------------------------------------------------
  // Surface format

  /** The pair the renderer asks for: 8-bit BGRA, unsigned normalised,
      in the non-linear sRGB colour space. */
  predicate IsPreferredFormat(f: SurfaceFormat)
  {
    f.colorSpace == COLOR_SPACE_SRGB_NONLINEAR && f.format == FORMAT_B8G8R8A8_UNORM
  }

  /** `getOptimalSurfaceFormat`: the first preferred pair in the list,
      otherwise the list's first entry. An empty list is undefined
      behaviour in the source (`front()`), hence the precondition. */
  method OptimalSurfaceFormat(details: SwapChainSupportDetails) returns (r: SurfaceFormat)
    requires |details.formats| > 0
    ensures r in details.formats
    ensures (exists k :: 0 <= k < |details.formats| && IsPreferredFormat(details.formats[k])) ==>
              exists k :: 0 <= k < |details.formats| && details.formats[k] == r && IsPreferredFormat(r) &&
                forall j :: 0 <= j < k ==> !IsPreferredFormat(details.formats[j])
    ensures (forall k :: 0 <= k < |details.formats| ==> !IsPreferredFormat(details.formats[k])) ==>
              r == details.formats[0]
  {
    var formats := details.formats;
    var i := 0;
    while i < |formats|
      invariant 0 <= i <= |formats|
      invariant forall j :: 0 <= j < i ==> !IsPreferredFormat(formats[j])
    {
      if IsPreferredFormat(formats[i]) {
        return formats[i];
      }
      i := i + 1;
    }
    return formats[0];
  }

  // ---------------------------------------------------------------------
  // Extent

  /** The special `currentExtent` as the source tests it: the comparison
      with the scalar `UINT32_MAX` converts that scalar through
      `vk::Extent2D(width, height = 0)`, so it matches `(UINT32_MAX, 0)`. */
  predicate IsSentinelAsWritten(e: Extent2D)
  {
    e == Extent2D(UINT32_MAX, 0)
  }

  /** The special value the Vulkan specification defines for
      `currentExtent` ("the surface size will be determined by the extent
      of a swapchain targeting the surface"): both dimensions `0xFFFFFFFF`. */
  predicate IsSpecialExtent(e: Extent2D)
  {
    e == Extent2D(UINT32_MAX, UINT32_MAX)
  }

  /** What clamping `x` into `[lo, hi]` means: inside the bounds when they
      are in order, `x` itself when it is already inside, the nearer bound
      when it is outside, and `lo` when the bounds are crossed. */
  predicate ClampedInto(lo: u32, hi: u32, x: u32, r: u32)
  {
    && (lo <= hi ==> lo <= r <= hi)
    && (lo <= x <= hi ==> r == x)
    && (lo <= hi < x ==> r == hi)
    && (x < lo || hi < lo ==> r == lo)
  }

  /** `ClampedInto` leaves one value only. */
  lemma ClampedIntoIsUnique(lo: u32, hi: u32, x: u32, r1: u32, r2: u32)
    requires ClampedInto(lo, hi, x, r1) && ClampedInto(lo, hi, x, r2)
    ensures r1 == r2
  {
  }

  /** `std::max(lo, std::min(hi, x))`. */
  function Clamp(lo: u32, hi: u32, x: u32): (r: u32)
    ensures ClampedInto(lo, hi, x, r)
  {
    var m := if hi < x then hi else x;
    if m < lo then lo else m
  }

  /** Each dimension of the preferred extent clamped into the reported
      bounds, independently of the other. */
  predicate ClampedExtent(caps: SurfaceCapabilities, preferred: Extent2D, r: Extent2D)
  {
    && ClampedInto(caps.minImageExtent.width, caps.maxImageExtent.width, preferred.width, r.width)
    && ClampedInto(caps.minImageExtent.height, caps.maxImageExtent.height, preferred.height, r.height)
  }

  function ClampExtent(caps: SurfaceCapabilities, preferred: Extent2D): (r: Extent2D)
    ensures ClampedExtent(caps, preferred, r)
  {
    Extent2D(Clamp(caps.minImageExtent.width, caps.maxImageExtent.width, preferred.width),
             Clamp(caps.minImageExtent.height, caps.maxImageExtent.height, preferred.height))
  }

  /** `getOptimalExtent`, with the sentinel test as written: when the
      surface lets the swap chain choose, each dimension of the preferred
      extent clamped into the bounds; otherwise the current extent,
      whatever was preferred. */
  function OptimalExtent(details: SwapChainSupportDetails, preferred: Extent2D): (r: Extent2D)
    ensures IsSentinelAsWritten(details.capabilities.currentExtent) ==>
              ClampedExtent(details.capabilities, preferred, r)
    ensures !IsSentinelAsWritten(details.capabilities.currentExtent) ==>
              r == details.capabilities.currentExtent
  {
    if IsSentinelAsWritten(details.capabilities.currentExtent) then
      ClampExtent(details.capabilities, preferred)
    else
      details.capabilities.currentExtent
  }

  /** `getOptimalExtent` with the sentinel the Vulkan specification
      defines: the same clamp, applied when the surface reports the special
      value, so that with bounds in order the result lies within them. */
  function OptimalExtentIntended(details: SwapChainSupportDetails, preferred: Extent2D): (r: Extent2D)
    ensures IsSpecialExtent(details.capabilities.currentExtent) ==>
              ClampedExtent(details.capabilities, preferred, r)
    ensures var caps := details.capabilities;
            IsSpecialExtent(caps.currentExtent) &&
            caps.minImageExtent.width <= caps.maxImageExtent.width &&
            caps.minImageExtent.height <= caps.maxImageExtent.height ==>
              caps.minImageExtent.width <= r.width <= caps.maxImageExtent.width &&
              caps.minImageExtent.height <= r.height <= caps.maxImageExtent.height
    ensures !IsSpecialExtent(details.capabilities.currentExtent) ==>
              r == details.capabilities.currentExtent
  {
    if IsSpecialExtent(details.capabilities.currentExtent) then
      ClampExtent(details.capabilities, preferred)
    else
      details.capabilities.currentExtent
  }

  /** Outside the sentinel case the preferred extent plays no part. */
  lemma ExtentIgnoresPreference(details: SwapChainSupportDetails, p1: Extent2D, p2: Extent2D)
    requires !IsSentinelAsWritten(details.capabilities.currentExtent)
    ensures OptimalExtent(details, p1) == OptimalExtent(details, p2) == details.capabilities.currentExtent
  {
  }

  /** A surface that reports the specification's special value
      `(0xFFFFFFFF, 0xFFFFFFFF)` with bounds `[1, 4096]` gets that special
      value back as its extent from the code as written, far outside the
      bounds; the intended choice clamps the preferred 800x600 and keeps it. */
  lemma SentinelMissedAsWritten()
    ensures var details := SwapChainSupportDetails(
              SurfaceCapabilities(Extent2D(UINT32_MAX, UINT32_MAX), Extent2D(1, 1), Extent2D(4096, 4096)),
              [], []);
            OptimalExtent(details, Extent2D(800, 600)) == Extent2D(UINT32_MAX, UINT32_MAX) &&
            OptimalExtent(details, Extent2D(800, 600)).width > details.capabilities.maxImageExtent.width &&
            OptimalExtentIntended(details, Extent2D(800, 600)) == Extent2D(800, 600)
  {
  }

  /** Bounds `[64, 4096]` in both dimensions under the sentinel: a preferred
      extent inside is kept, one below is raised to the minimum and one above
      is lowered to the maximum; a fixed current extent wins outright. */
  lemma ExtentExamples()
    ensures var caps := SurfaceCapabilities(Extent2D(UINT32_MAX, 0), Extent2D(64, 64), Extent2D(4096, 4096));
            var d := SwapChainSupportDetails(caps, [], []);
            OptimalExtent(d, Extent2D(800, 600)) == Extent2D(800, 600) &&
            OptimalExtent(d, Extent2D(10, 10)) == Extent2D(64, 64) &&
            OptimalExtent(d, Extent2D(5000, 5000)) == Extent2D(4096, 4096)
    ensures var caps := SurfaceCapabilities(Extent2D(1920, 1080), Extent2D(64, 64), Extent2D(4096, 4096));
            var d := SwapChainSupportDetails(caps, [], []);
            OptimalExtent(d, Extent2D(800, 600)) == Extent2D(1920, 1080)
  {
  }

  // ---------------------------------------------------------------------
  // Present mode

  /** `PRESENT_MODE_PRIORITIES`: lower is better, immediate is the worst. */
  const PRESENT_MODE_PRIORITIES: seq<(PresentMode, u32)> :=
    [(Mailbox, 0), (FifoRelaxed, 1), (Fifo, 2), (Immediate, UINT32_MAX)]

  /** The modes the priority table ranks. */
  predicate Ranked(m: PresentMode)
  {
    exists k :: 0 <= k < |PRESENT_MODE_PRIORITIES| && PRESENT_MODE_PRIORITIES[k].0 == m
  }

  /** The priority the table gives a ranked mode. */
  function Priority(m: PresentMode): (p: u32)
    requires Ranked(m)
    ensures (m, p) in PRESENT_MODE_PRIORITIES
  {
    match m
    case Mailbox => 0
    case FifoRelaxed => 1
    case Fifo => 2
    case Immediate => UINT32_MAX
  }

  /** The modes listed in a sequence, ignoring order and repetition. */
  function Listed(modes: seq<PresentMode>): set<PresentMode>
  {
    set m | m in modes
  }

  /** The policy: mailbox if listed, else relaxed FIFO if listed, else FIFO
      if listed, else immediate, which is returned even when not listed. */
  function PreferredPresentMode(listed: set<PresentMode>): PresentMode
  {
    if Mailbox in listed then Mailbox
    else if FifoRelaxed in listed then FifoRelaxed
    else if Fifo in listed then Fifo
    else Immediate
  }

  /** `std::max_element` over the table by priority: the first entry of
      greatest priority. */
  function MaxElement(t: seq<(PresentMode, u32)>): (e: (PresentMode, u32))
    requires |t| > 0
    ensures e in t
    ensures forall k :: 0 <= k < |t| ==> t[k].1 <= e.1
    ensures exists k :: 0 <= k < |t| && t[k] == e && forall j :: 0 <= j < k ==> t[j].1 < e.1
  {
    if |t| == 1 then t[0]
    else
      var m := MaxElement(t[..|t| - 1]);
      if m.1 < t[|t| - 1].1 then t[|t| - 1] else m
  }

  /** The policy is the listed ranked mode of least priority, seeded with
      the worst entry, immediate: it is immediate or listed, and no listed
      ranked mode has a lower priority. */
  lemma PreferredIsBestRanked(listed: set<PresentMode>)
    ensures Ranked(PreferredPresentMode(listed))
    ensures PreferredPresentMode(listed) in listed || PreferredPresentMode(listed) == Immediate
    ensures forall m :: m in listed && Ranked(m) ==>
              Priority(PreferredPresentMode(listed)) <= Priority(m)
  {
    assert PRESENT_MODE_PRIORITIES[0].0 == Mailbox;
    assert PRESENT_MODE_PRIORITIES[1].0 == FifoRelaxed;
    assert PRESENT_MODE_PRIORITIES[2].0 == Fifo;
    assert PRESENT_MODE_PRIORITIES[3].0 == Immediate;
  }

  /** Immediate comes back for a list that names no ranked mode better
      than it, including the empty list and one of unranked modes only. */
  lemma ImmediateFallback(modes: seq<PresentMode>)
    requires forall k :: 0 <= k < |modes| ==> modes[k] !in {Mailbox, FifoRelaxed, Fifo}
    ensures PreferredPresentMode(Listed(modes)) == Immediate
  {
  }

  /** `getOptimalPresentMode`: start from the worst table entry and, for
      each listed mode and each table entry naming it, keep the entry if its
      priority is strictly lower. The result depends only on the set of
      listed modes. */
  method OptimalPresentMode(details: SwapChainSupportDetails) returns (r: PresentMode)
    ensures r == PreferredPresentMode(Listed(details.presentModes))
  {
    var modes := details.presentModes;
    var curr := MaxElement(PRESENT_MODE_PRIORITIES);
    assert curr == (Immediate, UINT32_MAX) by {
      assert PRESENT_MODE_PRIORITIES[3].1 == UINT32_MAX;
    }
    assert modes[..0] == [];
    var i := 0;
    while i < |modes|
      invariant 0 <= i <= |modes|
      invariant Ranked(curr.0) && curr.1 == Priority(curr.0)
      invariant curr.0 == PreferredPresentMode(Listed(modes[..i]))
    {
      var mode := modes[i];
      ghost var before := curr;
      var j := 0;
      while j < |PRESENT_MODE_PRIORITIES|
        invariant 0 <= j <= |PRESENT_MODE_PRIORITIES|
        invariant Ranked(curr.0) && curr.1 == Priority(curr.0)
        invariant curr == if Ranked(mode) && IndexOf(mode) < j && Priority(mode) < before.1
                          then (mode, Priority(mode)) else before
      {
        var entry := PRESENT_MODE_PRIORITIES[j];
        if mode == entry.0 && entry.1 < curr.1 {
          curr := entry;
        }
        j := j + 1;
      }
      assert modes[..i + 1] == modes[..i] + [mode];
      assert Listed(modes[..i + 1]) == Listed(modes[..i]) + {mode};
      PreferredAdd(Listed(modes[..i]), mode);
      i := i + 1;
    }
    assert modes[..i] == modes;
    r := curr.0;
  }

  /** Listing one more mode changes the choice exactly when that mode is
      ranked strictly better than the current choice. */
  lemma PreferredAdd(listed: set<PresentMode>, m: PresentMode)
    ensures Ranked(PreferredPresentMode(listed))
    ensures PreferredPresentMode(listed + {m}) ==
              if Ranked(m) && Priority(m) < Priority(PreferredPresentMode(listed)) then m
              else PreferredPresentMode(listed)
  {
    PreferredIsBestRanked(listed);
    if m.SharedDemandRefresh? || m.SharedContinuousRefresh? {
      assert !Ranked(m);
    } else {
      var k := match m case Mailbox => 0 case FifoRelaxed => 1 case Fifo => 2 case _ => 3;
      assert PRESENT_MODE_PRIORITIES[k].0 == m;
    }
  }

  /** Where a ranked mode sits in the table. */
  function IndexOf(m: PresentMode): (k: nat)
    requires Ranked(m)
    ensures k < |PRESENT_MODE_PRIORITIES| && PRESENT_MODE_PRIORITIES[k] == (m, Priority(m))
    ensures forall j :: 0 <= j < |PRESENT_MODE_PRIORITIES| && j != k ==> PRESENT_MODE_PRIORITIES[j].0 != m
  {
    match m
    case Mailbox => 0
    case FifoRelaxed => 1
    case Fifo => 2
    case Immediate => 3
  }
}
