/** `vk::makeVersion` and `vk::size` (src/VkUtils.h), and the `uint32`
    cast of Macros.h, on 32-bit unsigned values. */
module VkUtils {

  /** `uint32_t`. */
  newtype u32 = x: int | 0 <= x < 0x1_0000_0000

  const UINT32_MAX: u32 := 0xFFFF_FFFF
  const TWO_POW_32: int := 0x1_0000_0000

  /** `major << 22 | minor << 12 | patch` in `uint32_t` arithmetic: bits
      shifted past bit 31 are lost and overlapping fields are OR-ed. */
  function MakeVersion(major: bv32, minor: bv32, patch: bv32): (r: bv32)
    ensures major < 0x400 && minor < 0x400 && patch < 0x1000 ==>
              r == major * 0x40_0000 + minor * 0x1000 + patch
  {
    (major << 22) | (minor << 12) | patch
  }

  /** The three fields of a packed version, as `VK_VERSION_MAJOR`,
      `VK_VERSION_MINOR` and `VK_VERSION_PATCH` read them. */
  function VersionMajor(v: bv32): bv32 { v >> 22 }
  function VersionMinor(v: bv32): bv32 { (v >> 12) & 0x3FF }
  function VersionPatch(v: bv32): bv32 { v & 0xFFF }

  /** Fields that fit their widths (10, 10 and 12 bits) come back unchanged. */
  lemma MakeVersionRoundTrip(major: bv32, minor: bv32, patch: bv32)
    requires major < 0x400 && minor < 0x400 && patch < 0x1000
    ensures VersionMajor(MakeVersion(major, minor, patch)) == major
    ensures VersionMinor(MakeVersion(major, minor, patch)) == minor
    ensures VersionPatch(MakeVersion(major, minor, patch)) == patch
  {
  }

  /** Lexicographic order on in-range `(major, minor, patch)`. */
  predicate VersionLess(a: (bv32, bv32, bv32), b: (bv32, bv32, bv32))
  {
    a.0 < b.0 || (a.0 == b.0 && (a.1 < b.1 || (a.1 == b.1 && a.2 < b.2)))
  }

  predicate InRange(v: (bv32, bv32, bv32))
  {
    v.0 < 0x400 && v.1 < 0x400 && v.2 < 0x1000
  }

  /** Within the field widths, packing is strictly increasing in the
      lexicographic order of the fields. */
  lemma MakeVersionMonotone(a: (bv32, bv32, bv32), b: (bv32, bv32, bv32))
    requires InRange(a) && InRange(b) && VersionLess(a, b)
    ensures MakeVersion(a.0, a.1, a.2) < MakeVersion(b.0, b.1, b.2)
  {
  }

  /** The version given to the instance for application, engine and API. */
  lemma MakeVersionOneZeroZero()
    ensures MakeVersion(1, 0, 0) == 0x40_0000
  {
  }

  /** `static_cast<uint32_t>(n)` of a non-negative count. */
  function Uint32(n: nat): (r: u32)
    ensures n < TWO_POW_32 ==> r as int == n
    ensures (n - r as int) % TWO_POW_32 == 0
  {
    (n % TWO_POW_32) as u32
  }

  /** `vk::size(t)`: the element count of `t`, truncated to 32 bits. */
  function Size<T>(t: seq<T>): (r: u32)
    ensures |t| < TWO_POW_32 ==> r as int == |t|
    ensures r as int <= |t|
  {
    Uint32(|t|)
  }
}
