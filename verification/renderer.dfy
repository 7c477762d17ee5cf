/** The decision logic of the renderer's setup (Renderer.cpp): checking the
    instance and device extensions it needs, and turning the queue-family
    index set into the graphics and present indices and the queue-create
    entries. The driver's answers are inputs; each `exit(-1)` is an error
    result. */
module RendererSetup {
  import opened Results
  import opened VkUtils
  import opened Containers

  /** `VK_KHR_SWAPCHAIN_EXTENSION_NAME`. */
  const VK_KHR_SWAPCHAIN_EXTENSION_NAME: string := "VK_KHR_swapchain"

  /** `vk::ExtensionProperties`: a name (compared with `strcmp`) and a
      version. */
  datatype ExtensionProperties = ExtensionProperties(extensionName: string, specVersion: u32)

  /** `vk::DeviceQueueCreateInfo` as the renderer fills it: a family index
      and a single queue (the queue priority is not modelled). */
  datatype DeviceQueueCreateInfo = DeviceQueueCreateInfo(queueFamilyIndex: u32, queueCount: u32)

  /** Some supported entry has a name `strcmp`-equal to `name`. */
  predicate IsSupported(name: string, supported: seq<ExtensionProperties>)
  {
    exists e :: 0 <= e < |supported| && supported[e].extensionName == name
  }

  /** The instance-extension check: the first required name with no
      supported entry of the same name, if any. */
  method FirstUnsupported(required: seq<string>, supported: seq<ExtensionProperties>)
    returns (missing: Option<string>)
    ensures missing.None? <==> forall k :: 0 <= k < |required| ==> IsSupported(required[k], supported)
    ensures missing.Some? ==>
              exists k :: 0 <= k < |required| && required[k] == missing.value &&
                !IsSupported(missing.value, supported) &&
                forall j :: 0 <= j < k ==> IsSupported(required[j], supported)
  {
    var i := 0;
    while i < |required|
      invariant 0 <= i <= |required|
      invariant forall j :: 0 <= j < i ==> IsSupported(required[j], supported)
    {
      var reqExt := required[i];
      var found := false;
      var e := 0;
      while e < |supported|
        invariant 0 <= e <= |supported|
        invariant !found
        invariant forall x :: 0 <= x < e ==> supported[x].extensionName != reqExt
      {
        if supported[e].extensionName == reqExt {
          found := true;
          break;
        }
        e := e + 1;
      }
      if !found {
        return Some(reqExt);
      }
      i := i + 1;
    }
    return None;
  }

  /** The names of the device's extensions, in order. */
  function ExtensionNames(props: seq<ExtensionProperties>): seq<string>
  {
    seq(|props|, k requires 0 <= k < |props| => props[k].extensionName)
  }

  /** The predicate handed to `erase_if`: the name occurs in `names`. */
  function NameIn(names: seq<string>): string -> bool
  {
    name => name in names
  }

  /** The device-extension check: a copy of the enabled names, with every
      name the device offers erased. The order of the enabled names is kept,
      and a name is reported exactly when the device does not offer it. */
  method UnsupportedExtensions(enabled: seq<string>, deviceExtensionNames: seq<string>)
    returns (unsupported: seq<string>)
    ensures unsupported == Erased(enabled, NameIn(deviceExtensionNames))
    ensures forall x :: x in unsupported <==> x in enabled && x !in deviceExtensionNames
    ensures unsupported == [] <==> forall k :: 0 <= k < |enabled| ==> enabled[k] in deviceExtensionNames
  {
    var copy := new string[|enabled|](i requires 0 <= i < |enabled| => enabled[i]);
    assert copy[..] == enabled;
    var len := EraseIf(copy, NameIn(deviceExtensionNames));
    unsupported := copy[..len];
    forall x
      ensures x in unsupported <==> x in enabled && x !in deviceExtensionNames
    {
      ErasedMembers(enabled, NameIn(deviceExtensionNames), x);
    }
    if unsupported != [] {
      assert unsupported[0] in unsupported;
    } else {
      forall k | 0 <= k < |enabled|
        ensures enabled[k] in deviceExtensionNames
      {
        assert enabled[k] in enabled;
      }
    }
  }

  /** The renderer's setup state that the modelled steps read and write. */
  class Renderer {
    var enabledExtensions: seq<string>
    var enabledDeviceExtensions: seq<string>
    var graphicsQueueFamilyIndex: u32
    var presentQueueFamilyIndex: u32

    /** Nothing is enabled yet. The source leaves the two indices
        uninitialised; the model starts them at 0. */
    constructor ()
      ensures enabledExtensions == [] && enabledDeviceExtensions == []
    {
      enabledExtensions := [];
      enabledDeviceExtensions := [];
      graphicsQueueFamilyIndex := 0;
      presentQueueFamilyIndex := 0;
    }

    /** `enableRequiredExtensions`: append the names the windowing library
        requires, in order, then fail on the first enabled name that no
        supported instance extension carries. */
    method EnableRequiredExtensions(supportedExtensions: seq<ExtensionProperties>, windowExtensions: seq<string>)
      returns (outcome: Outcome)
      modifies this`enabledExtensions
      ensures enabledExtensions == old(enabledExtensions) + windowExtensions
      ensures outcome.Pass? <==>
                forall k :: 0 <= k < |enabledExtensions| ==> IsSupported(enabledExtensions[k], supportedExtensions)
      ensures outcome.Fail? ==>
                outcome.error.MissingInstanceExtension? &&
                exists k :: 0 <= k < |enabledExtensions| && enabledExtensions[k] == outcome.error.name &&
                  !IsSupported(outcome.error.name, supportedExtensions) &&
                  forall j :: 0 <= j < k ==> IsSupported(enabledExtensions[j], supportedExtensions)
    {
      var i := 0;
      while i < |windowExtensions|
        invariant 0 <= i <= |windowExtensions|
        invariant enabledExtensions == old(enabledExtensions) + windowExtensions[..i]
      {
        enabledExtensions := enabledExtensions + [windowExtensions[i]];
        i := i + 1;
        assert windowExtensions[..i] == windowExtensions[..i - 1] + [windowExtensions[i - 1]];
      }
      assert windowExtensions[..i] == windowExtensions;
      var missing := FirstUnsupported(enabledExtensions, supportedExtensions);
      if missing.Some? {
        outcome := Fail(MissingInstanceExtension(missing.value));
      } else {
        outcome := Pass;
      }
    }

    /** `enableRequiredDeviceExtensions`: append the swap-chain extension
        (on every call), then fail with the enabled names the device does
        not offer, in their enabled order, if there are any. */
    method EnableRequiredDeviceExtensions(deviceExtensions: seq<ExtensionProperties>) returns (outcome: Outcome)
      modifies this`enabledDeviceExtensions
      ensures enabledDeviceExtensions == old(enabledDeviceExtensions) + [VK_KHR_SWAPCHAIN_EXTENSION_NAME]
      ensures var unsupported := Erased(enabledDeviceExtensions, NameIn(ExtensionNames(deviceExtensions)));
              outcome == if unsupported == [] then Pass else Fail(MissingDeviceExtensions(unsupported))
      ensures outcome.Pass? <==>
                forall k :: 0 <= k < |enabledDeviceExtensions| ==>
                  enabledDeviceExtensions[k] in ExtensionNames(deviceExtensions)
    {
      enabledDeviceExtensions := enabledDeviceExtensions + [VK_KHR_SWAPCHAIN_EXTENSION_NAME];
      var deviceExtensionNames := ExtensionNames(deviceExtensions);
      var unsupportedExtensions := UnsupportedExtensions(enabledDeviceExtensions, deviceExtensionNames);
      if unsupportedExtensions != [] {
        outcome := Fail(MissingDeviceExtensions(unsupportedExtensions));
      } else {
        outcome := Pass;
      }
    }

    /** `pickDevice` from the queue-family index set on: fail if the set
        holds `nullopt`; otherwise graphics takes the least element and
        present the greatest, the device extensions are checked, and one
        queue-create entry is built per element, in ascending order. The
        source dereferences `begin()` unguarded, so the set is not empty. */
    method PickDevice(queueFamilyIndices: seq<Option<u32>>, deviceExtensions: seq<ExtensionProperties>)
      returns (result: Result<seq<DeviceQueueCreateInfo>>)
      requires Ascending(queueFamilyIndices) && |queueFamilyIndices| > 0
      modifies this`graphicsQueueFamilyIndex, this`presentQueueFamilyIndex, this`enabledDeviceExtensions
      ensures None in queueFamilyIndices ==>
                result == Err(NoSuitableQueueFamily) &&
                graphicsQueueFamilyIndex == old(graphicsQueueFamilyIndex) &&
                presentQueueFamilyIndex == old(presentQueueFamilyIndex) &&
                enabledDeviceExtensions == old(enabledDeviceExtensions)
      ensures None !in queueFamilyIndices ==>
                graphicsQueueFamilyIndex == queueFamilyIndices[0].value &&
                presentQueueFamilyIndex == queueFamilyIndices[|queueFamilyIndices| - 1].value &&
                enabledDeviceExtensions == old(enabledDeviceExtensions) + [VK_KHR_SWAPCHAIN_EXTENSION_NAME]
      ensures None !in queueFamilyIndices ==>
                var unsupported := Erased(enabledDeviceExtensions, NameIn(ExtensionNames(deviceExtensions)));
                (result.Err? <==> unsupported != []) &&
                (result.Err? ==> result.error == MissingDeviceExtensions(unsupported))
      ensures result.Ok? ==>
                |result.value| == |queueFamilyIndices| &&
                forall k :: 0 <= k < |queueFamilyIndices| ==>
                  result.value[k] == DeviceQueueCreateInfo(queueFamilyIndices[k].value, 1)
    {
      var k := 0;
      while k < |queueFamilyIndices|
        invariant 0 <= k <= |queueFamilyIndices|
        invariant forall j :: 0 <= j < k ==> queueFamilyIndices[j].Some?
      {
        if queueFamilyIndices[k].None? {
          return Err(NoSuitableQueueFamily);
        }
        k := k + 1;
      }
      graphicsQueueFamilyIndex := queueFamilyIndices[0].value;
      presentQueueFamilyIndex := queueFamilyIndices[|queueFamilyIndices| - 1].value;

      var outcome := EnableRequiredDeviceExtensions(deviceExtensions);
      if outcome.Fail? {
        return Err(outcome.error);
      }
      var deviceQueueCreateInfos: seq<DeviceQueueCreateInfo> := [];
      var n := 0;
      while n < |queueFamilyIndices|
        invariant 0 <= n <= |queueFamilyIndices|
        invariant |deviceQueueCreateInfos| == n
        invariant forall j :: 0 <= j < n ==>
                    deviceQueueCreateInfos[j] == DeviceQueueCreateInfo(queueFamilyIndices[j].value, 1)
      {
        deviceQueueCreateInfos := deviceQueueCreateInfos + [DeviceQueueCreateInfo(queueFamilyIndices[n].value, 1)];
        n := n + 1;
      }
      result := Ok(deviceQueueCreateInfos);
    }
  }

  /** On success the graphics index is at most the present index, equal
      exactly when the set is a singleton, and the queue-create entries go
      in strictly ascending family order: which family gets which role is an
      artefact of the set's order, not a capability match. */
  lemma QueueAssignmentOrder(queueFamilyIndices: seq<Option<u32>>)
    requires Ascending(queueFamilyIndices) && |queueFamilyIndices| > 0 && None !in queueFamilyIndices
    ensures queueFamilyIndices[0].value <= queueFamilyIndices[|queueFamilyIndices| - 1].value
    ensures queueFamilyIndices[0].value == queueFamilyIndices[|queueFamilyIndices| - 1].value <==>
              |queueFamilyIndices| == 1
    ensures forall i, j :: 0 <= i < j < |queueFamilyIndices| ==>
              queueFamilyIndices[i].value < queueFamilyIndices[j].value
  {
  }
}
