# Capability selection of a minimal Vulkan bootstrap, in Dafny

This project models the decision logic of a small Vulkan setup program
(vulkan-2d): the choices it makes among the capabilities the driver reports,
and the few checks that make it give up. Everything else in that program
is a call into the driver or the windowing library, and is not modelled.

- `SwapChainUtils` (`swap_chain_utils.dfy`): the surface format (first
  `B8G8R8A8_UNORM` / sRGB-non-linear pair, else the first entry), the swap
  extent (clamp of the preferred size when the surface reports the special
  current extent, else the current extent) and the present mode (a priority
  table seeded with its worst entry, immediate).
- `DeviceUtils` (`device_utils.dfy`): the first discrete GPU, and the
  queue-family scan that returns a `std::set<std::optional<uint32_t>>`,
  reproduced with its quirks: only even indices are examined, each role
  keeps the *last* examined family that has it, and the scan stops as soon
  as the two recorded indices agree, including when both are still
  "not found"; and a role that is not found adds nothing to the set,
  because `ret.insert({})` selects the initializer-list overload of
  `std::set::insert` with an empty list.
- `RendererSetup` (`renderer.dfy`): a `Renderer` class holding the enabled
  instance and device extensions and the two chosen queue-family indices;
  the instance-extension check, the device-extension check, and the part of
  `pickDevice` that turns the index set into the graphics index (least
  element), the present index (greatest element) and one queue-create entry
  per element.
- `VkUtils` (`vk_utils.dfy`): `makeVersion` on 32-bit words, `size` and the
  `uint32` cast as reduction modulo 2^32.
- `Containers` (`containers.dfy`): `std::experimental::erase_if` on an
  array (in place, stable), and the ordered `std::set` of optional indices
  as a strictly ascending sequence in which `nullopt` is below every value.
- `Results` (`results.dfy`): `Option` for `std::optional`, and the error
  results that stand for the program's `exit(-1)` paths.

Driver answers are inputs: device types, per-family queue flags and
surface-support flags, instance and device extension lists, the windowing
library's required extension names, and the surface capabilities record.

Three behaviours of the code are modelled as written:
- the queue scan examines even indices only, keeps the last one per role,
  and never puts `nullopt` into the set, although `pickDevice`
  (Renderer.cpp:137-142) checks the set for `nullopt` to reject a device
  that lacks a role;
- the present-mode choice returns immediate when no better-ranked mode is
  listed, whether or not immediate is listed; the Vulkan specification
  requires every surface to support FIFO, so a conforming driver never
  reaches that fallback;
- with no discrete GPU the code takes `front()` of an empty vector, which
  is undefined, so the model requires one.

The extent sentinel: `SwapChainUtils.h:33` compares `currentExtent` with
the scalar `UINT32_MAX`, which Vulkan-Hpp's non-explicit
`Extent2D(width, height = 0)` constructor turns into `(0xFFFFFFFF, 0)`.
`IsSentinelAsWritten` is that reading, and `OptimalExtent` uses it.
`IsSpecialExtent` is the value `(0xFFFFFFFF, 0xFFFFFFFF)` that the Vulkan
specification defines for `VkSurfaceCapabilitiesKHR::currentExtent`
(section "Surface Queries"); `OptimalExtentIntended` uses it.

## Model

| member | source | states |
|---|---|---|
| `VkUtils.MakeVersion` | src/VkUtils.h:7-9 | with major below 2^10, minor below 2^10 and patch below 2^12 the packed word is `major*2^22 + minor*2^12 + patch` (the fields do not overlap); outside those widths the bits shifted past bit 31 are lost |
| `VkUtils.MakeVersionRoundTrip` | src/VkUtils.h:7-9 | within the field widths, `r >> 22`, `(r >> 12) & 0x3FF` and `r & 0xFFF` give back major, minor and patch |
| `VkUtils.MakeVersionMonotone` | src/VkUtils.h:7-9 | within the field widths, packing is strictly increasing in lexicographic `(major, minor, patch)` order |
| `VkUtils.MakeVersionOneZeroZero` | Renderer.cpp:13-14 | the application, engine and API version `makeVersion(1, 0, 0)` is `0x400000` |
| `VkUtils.Uint32` | Macros.h:13-16 | the cast is congruent to its argument modulo 2^32 and exact below 2^32 |
| `VkUtils.Size` | src/VkUtils.h:11-14 | `size(t)` is at most the element count and equals it for fewer than 2^32 elements |
| `Containers.EraseIf` | DeviceUtils.h:20-24 | after `erase_if` the kept prefix of the array is exactly the elements not matching the predicate, in their original order |
| `Containers.ErasedAppend` | Renderer.cpp:44-51 | erasing from a concatenation is the concatenation of the erasures, so the erase pass can be done one element at a time |
| `Containers.ErasedMembers` | Renderer.cpp:44-51 | an element survives `erase_if` exactly when it was present and does not match |
| `Containers.ErasedHead` | DeviceUtils.h:20-26 | when some element survives, `front()` of the erased vector is the first element of the original that does not match |
| `Containers.Insert` | DeviceUtils.h:50-57 | `set.insert` keeps the set strictly ascending, adds exactly the new element, and leaves the set unchanged if it was already there |
| `SwapChainUtils.OptimalSurfaceFormat` | SwapChainUtils.h:24-29 | the result is in the list; if a `(B8G8R8A8_UNORM, SRGB_NONLINEAR)` pair is listed the result is the first such pair, otherwise it is the first entry; the list must not be empty |
| `SwapChainUtils.ClampedIntoIsUnique` | SwapChainUtils.h:37-41 | the clamp properties (inside ordered bounds, unchanged when in range, nearer bound when out of range, minimum when the bounds cross) determine the result |
| `SwapChainUtils.Clamp` | SwapChainUtils.h:37-41 | `max(min, min(max, x))` lies in `[min, max]` when `min <= max`, returns `x` when already in range, the nearer bound otherwise, and `min` when `min > max` |
| `SwapChainUtils.ClampExtent` | SwapChainUtils.h:35-42 | width and height are each clamped into their own bounds, independently |
| `SwapChainUtils.OptimalExtent` | SwapChainUtils.h:31-44 | when `currentExtent` equals the as-written sentinel `(0xFFFFFFFF, 0)` each dimension of the preferred extent is clamped into the reported bounds; otherwise the result is `currentExtent` |
| `SwapChainUtils.ExtentIgnoresPreference` | SwapChainUtils.h:43 | outside the sentinel case the result is `currentExtent` whatever extent is preferred |
| `SwapChainUtils.ExtentExamples` | SwapChainUtils.h:33-43 | with bounds `[64, 4096]` under the sentinel, 800x600 is kept, 10x10 becomes 64x64 and 5000x5000 becomes 4096x4096; a fixed 1920x1080 current extent is returned unchanged |
| `SwapChainUtils.OptimalExtentIntended` | SwapChainUtils.h:33-43 | with the specification's sentinel `(0xFFFFFFFF, 0xFFFFFFFF)`, the same clamp; with ordered bounds the result lies inside them |
| `SwapChainUtils.SentinelMissedAsWritten` | SwapChainUtils.h:33 | a surface reporting `(0xFFFFFFFF, 0xFFFFFFFF)` with bounds `[1, 4096]` gets `(0xFFFFFFFF, 0xFFFFFFFF)` from the code as written, above the maximum, while the intended choice gives the preferred 800x600 |
| `SwapChainUtils.Priority` | SwapChainUtils.h:57-61 | each ranked mode's priority is the one the table pairs it with |
| `SwapChainUtils.MaxElement` | SwapChainUtils.h:47-48 | the seed is the first table entry whose priority is at least every entry's, which is `(immediate, UINT32_MAX)` |
| `SwapChainUtils.PreferredIsBestRanked` | SwapChainUtils.h:47-61 | the chosen mode is ranked, is listed or is immediate, and no listed ranked mode has a lower priority |
| `SwapChainUtils.PreferredAdd` | SwapChainUtils.h:49-52 | listing one more mode changes the choice exactly when that mode is ranked strictly better than the current choice |
| `SwapChainUtils.ImmediateFallback` | SwapChainUtils.h:47-48 | a list naming none of mailbox, relaxed FIFO and FIFO (including the empty list, or only unranked modes) yields immediate, listed or not |
| `SwapChainUtils.OptimalPresentMode` | SwapChainUtils.h:46-54 | the result is mailbox if listed, else relaxed FIFO if listed, else FIFO if listed, else immediate; it is a function of the set of listed modes, so order and duplicates do not matter |
| `DeviceUtils.OptimalPhysicalDevice` | DeviceUtils.h:17-28 | the result is the first device in enumeration order whose type is discrete GPU; one must exist |
| `DeviceUtils.LastWith` | DeviceUtils.h:42-48 | the recorded index after examining the even indices below `k` is "not found" (the family count) or an even index below `k` whose family has the role |
| `DeviceUtils.LastWithIsLast` | DeviceUtils.h:43-46 | every examined index with the role is at or before the recorded index, which is then found |
| `DeviceUtils.ScanEndFrom` | DeviceUtils.h:42-49 | the scan never examines an index at or beyond the family count |
| `DeviceUtils.ScanEndFromFirstTie` | DeviceUtils.h:42-49 | resumed at an even index, the scan passes every even index without a tie and stops right after the first tie, or runs to the count |
| `DeviceUtils.ScanStep` | DeviceUtils.h:43-48 | one iteration: a role's recorded index moves to the examined index exactly when that family has the role, the skipped odd index changes nothing, and a tie ends the scan |
| `DeviceUtils.ScanExit` | DeviceUtils.h:42 | a counter at or one past the count examines nothing more |
| `DeviceUtils.InsertAsWritten` | DeviceUtils.h:51-56 | a found role's `insert({idx})` adds exactly its index and keeps the set ascending; an unfound role's `insert({})` leaves the set unchanged |
| `DeviceUtils.QueueFamilyIndexSet` | DeviceUtils.h:50-57 | the returned set, in iteration order, is strictly ascending and never holds `nullopt` |
| `DeviceUtils.GraphicsAndPresentQueueFamilyIndices` | DeviceUtils.h:36-58 | the loop (counter incremented twice, break on equal indices) returns exactly the set of the recorded indices that were found at the point the scan stops |
| `DeviceUtils.RecordedIndexIsLastExamined` | DeviceUtils.h:43-46 | each recorded index is "not found" or an even examined index with the role, and is the last examined index with that role |
| `DeviceUtils.ScanStopsAtFirstTie` | DeviceUtils.h:40-47 | the scan stops right after the first even index at which the recorded graphics and present indices are equal |
| `DeviceUtils.NeitherAtZeroStopsAtOnce` | DeviceUtils.h:40-47 | when family 0 has neither capability both indices are still "not found", the scan stops at once and the set is empty, where inserting `nullopt` would give `{nullopt}` |
| `DeviceUtils.QueueFamilyIndexSetShape` | DeviceUtils.h:50-57 | the set never holds `nullopt` and has at most two elements: none exactly when both roles are unfound, two exactly when both were found at different indices; each found index is in it, and every value is an even index below the count whose family has a role |
| `DeviceUtils.LastWithReadsEvenOnly` | DeviceUtils.h:42-48 | the recorded indices depend only on the families at even indices |
| `DeviceUtils.ScanEndReadsEvenOnly` | DeviceUtils.h:42-48 | where the scan stops depends only on the families at even indices |
| `DeviceUtils.OddFamiliesIgnored` | DeviceUtils.h:42-48 | families that differ only at odd indices give the same set |
| `DeviceUtils.SharedFamilyAtTwo` | DeviceUtils.h:42-57 | with family 2 the first to serve both roles, the scan stops after index 2 and the set is `{2}` |
| `DeviceUtils.OddPresentFamilyMissed` | DeviceUtils.h:42-48 | with graphics only at family 0 and presentation only at family 3, the set is `{0}` although family 0 cannot present |
| `DeviceUtils.IndexSetWithNullopt` | DeviceUtils.h:50-57 | inserting `nullopt` for an unfound role gives one or two elements, one exactly when the two indices agree, `nullopt` exactly when a role is unfound, and both recorded values and nothing else |
| `DeviceUtils.LastAny` | DeviceUtils.h:42-46 | with every index examined, a role's recorded index is "not found" or an index below `k` whose family has the role |
| `DeviceUtils.LastAnyIsLast` | DeviceUtils.h:42-46 | with every index examined, each index with the role is at or before the recorded one, which is then found |
| `DeviceUtils.FirstServingBoth` | DeviceUtils.h:42-47 | the first index from `i` on whose family serves both roles, or the count when none does |
| `DeviceUtils.FirstServingBothIsFirst` | DeviceUtils.h:42-47 | no family before the one found serves both roles |
| `DeviceUtils.IntendedIndexSet` | DeviceUtils.h:42-57 | the set the scan evidently intends is strictly ascending with one or two elements |
| `DeviceUtils.IntendedIndexSetShape` | DeviceUtils.h:42-57 | in the intended set `nullopt` appears exactly when no family has some role; otherwise some element's family has graphics and some element's family presents; the first family serving both roles is chosen for both; every value is a family with a role |
| `DeviceUtils.IntendedQueueFamilyIndices` | DeviceUtils.h:36-58 | the loop examining every index once, stopping at a family serving both roles, and inserting `nullopt` for an unfound role returns exactly the intended set |
| `DeviceUtils.IntendedFindsOddPresentFamily` | DeviceUtils.h:42-57 | on graphics only at family 0 and presentation only at family 3, the intended set is `{0, 3}` |
| `RendererSetup.FirstUnsupported` | Renderer.cpp:81-94 | no result exactly when every required name is `strcmp`-equal to some supported name; otherwise the first required name that is not |
| `RendererSetup.UnsupportedExtensions` | Renderer.cpp:43-51 | the enabled names with every device-offered name erased, order kept: a name is reported exactly when it is enabled and not offered, and the list is empty exactly when all enabled names are offered |
| `RendererSetup.Renderer.constructor` | src/Renderer.h:42-43 | the enabled instance and device extension lists start empty |
| `RendererSetup.Renderer.EnableRequiredExtensions` | Renderer.cpp:61-95 | the windowing library's names are appended to the enabled list in order; the step fails exactly when some enabled name is unsupported, naming the first such |
| `RendererSetup.Renderer.EnableRequiredDeviceExtensions` | Renderer.cpp:29-59 | the swap-chain extension is appended on every call; the step fails with the unsupported enabled names, in order, exactly when there are any |
| `RendererSetup.Renderer.PickDevice` | Renderer.cpp:137-153 | fails, changing nothing, exactly when the set holds `nullopt`; otherwise graphics is the least element, present the greatest, the device extensions are checked, and on success there is one single-queue create entry per element in set order |
| `RendererSetup.QueueAssignmentOrder` | Renderer.cpp:144-153 | graphics is at most present, equal exactly when the set is a singleton, and the create entries are in strictly ascending family order |

## Left out

- `DeviceUtils.GraphicsAndPresentQueueFamilyIndices`: requires fewer than 0xFFFFFFFF families, because at exactly that count the 32-bit counter steps from 0xFFFFFFFE to 0 and the C++ loop restarts, and at 2^32 families or more `uint32(size())` truncates the count the loop and the "not found" value use; the driver reports the count as a `uint32_t`, so the model does not cover those counts. `DeviceUtils.IntendedQueueFamilyIndices` has the same requirement.
- `DeviceUtils.OptimalPhysicalDevice`: requires a discrete GPU, because the code takes `front()` of a possibly empty vector (undefined behaviour), so there is no behaviour to model for that case.
- `SwapChainUtils.OptimalSurfaceFormat`: requires a non-empty format list, for the same `front()` reason.
- `RendererSetup.Renderer.PickDevice`: requires a non-empty set, because `begin()` is dereferenced unguarded at Renderer.cpp:144, which is undefined for an empty set. The scan as written does return an empty set when both roles are unfound where it stops (`DeviceUtils.NeitherAtZeroStopsAtOnce`); that case is not modelled beyond the set itself.
- `RendererSetup.Renderer.constructor`: the source leaves the two queue-family indices uninitialised; the model starts them at 0.
- Extension names are compared as strings; `strcmp` on NUL-terminated names agrees with that for names without an embedded NUL.
- Formats and colour spaces are their numeric enum values; only the three extent fields of `vk::SurfaceCapabilitiesKHR` that the choice reads are modelled.
- Driver and windowing queries are inputs, not calls: `enumeratePhysicalDevices`, `getProperties`, `getQueueFamilyProperties`, `getSurfaceSupportKHR`, `enumerateDeviceExtensionProperties`, `enumerateInstanceExtensionProperties`, `glfwGetRequiredInstanceExtensions`, and `getSwapChainSupport` (SwapChainUtils.h:16-22).
- `pickDevice` before line 137 (the device enumeration for console output and the two `DeviceUtils` calls) is covered by `OptimalPhysicalDevice` and `GraphicsAndPresentQueueFamilyIndices` separately; `PickDevice` takes their result as input. Logical-device creation and `getQueue` after line 153 are driver calls.
- The `reinterpret_cast` of a `size_t*` to `uint32_t*` at Renderer.cpp:71 (half of the count written by the windowing library): the model takes the list of names directly.
- `cleanup()` before each `exit(-1)`, console output under `DEBUG`, and the float queue priorities.
- `enableRequiredLayers`, `initVk`, `createSurface`, `createSwapChain`, `createShaders`, `createRenderPass`, `createPipeline`, `cleanup`: driver plumbing with no decision in it.
- ShaderUtils.h (file reading, shader compilation, module creation), Window.cpp/Window.h (windowing wrappers), main.cpp, src/main.cpp, main.h and src/Renderer.h (call order and declarations) are not part of this model.

## Findings

| source | as written | input that shows it | evidently intended | confidence | as-written member | corrected member |
|---|---|---|---|---|---|---|
| SwapChainUtils.h:33 | `currentExtent == UINT32_MAX` converts the scalar to `Extent2D(0xFFFFFFFF, 0)`, so the special value `(0xFFFFFFFF, 0xFFFFFFFF)` is not recognised | current extent `(0xFFFFFFFF, 0xFFFFFFFF)`, bounds `[1, 4096]` in both dimensions, preferred 800x600: the result is `(0xFFFFFFFF, 0xFFFFFFFF)` | clamp the preferred extent whenever the surface reports `(0xFFFFFFFF, 0xFFFFFFFF)` | medium (rests on Vulkan-Hpp's implicit `Extent2D` constructor); not executed | `SwapChainUtils.SentinelMissedAsWritten` | `SwapChainUtils.OptimalExtentIntended` |
| DeviceUtils.h:42-48 | the counter is incremented in the body and at the loop head, and the loop breaks when both indices are still "not found" | families: graphics only at 0, presentation only at 3: the set is `{0}`, and `pickDevice` takes family 0, which cannot present, as the present family although family 3 can | examine every family, stop at one serving both roles; a role is missing only if no family has it (on this input `{0, 3}`) | high; not executed | `DeviceUtils.OddPresentFamilyMissed` | `DeviceUtils.IntendedQueueFamilyIndices` |
| DeviceUtils.h:53-56 | `ret.insert({})` selects the `initializer_list` overload with an empty list and inserts nothing, so `nullopt` never enters the set and the check at Renderer.cpp:137-142 never fires | one family, with neither capability: the scan stops at once with both roles unfound, the set is empty, and Renderer.cpp:144 dereferences `begin()` of an empty set | insert `nullopt` for an unfound role, giving `{nullopt}` here and a clean abort in `pickDevice` | high (overload resolution prefers the initializer-list overload for `{}`); not executed | `DeviceUtils.NeitherAtZeroStopsAtOnce` | `DeviceUtils.IndexSetWithNullopt` |

`PickDevice` takes the index set as its input, so it applies unchanged to
the set from either scan; with the intended set, its `nullopt` check is
what rejects a device that lacks a role.
