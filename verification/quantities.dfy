/** Address quantities of the storage layer: absolute addresses, offsets and
    page indices, each a single-field wrapper around the device's unsigned
    address type `U`.

    `U` is generic in the source; here it is an unsigned integer of `bits`
    bits, so every well-formed quantity holds a value below `Pow2(bits)`.
    Only `Address + AddressOffset` and `Address - AddressOffset` exist, and
    both produce an `Address`: there is no operation on two addresses.
    Both operands are passed by reference and only read; as values here,
    they cannot change. */
module Quantities {

  /** An absolute location in the device's address space. */
  datatype Address = Address(value: nat)

  /** A distance that may be added to or subtracted from an `Address`. */
  datatype AddressOffset = AddressOffset(value: nat)

  /** A page identifier in the device's memory space. */
  datatype Page = Page(value: nat)

  /** The outcome of the integer arithmetic on `U`: `None` stands for the
      overflow panic of a build with overflow checks. */
  datatype Option<+T> = None | Some(value: T)

  /** Integer overflow behaviour of the build, for a primitive unsigned
      `U`: with Rust's `overflow-checks` setting on (the default of the
      debug profile) an overflowing `+` or `-` panics; with it off (the
      default of the release profile) it wraps around modulo the width of
      `U`. A `U` that wraps by itself, such as `Wrapping<u32>`, behaves as
      `Release` under either setting. */
  datatype Build = Debug | Release

  function Pow2(bits: nat): (r: nat)
    ensures r >= 1
  {
    if bits == 0 then 1 else 2 * Pow2(bits - 1)
  }

  /** `x` is a value of the unsigned type `U` of width `bits`. */
  predicate InU(bits: nat, x: int)
  {
    0 <= x < Pow2(bits)
  }

  // Facts about Euclidean remainder that the wrapping results rest on.

  lemma ModOfSmall(x: int, m: int)
    requires 0 < m && 0 <= x < m
    ensures x % m == x
  {
  }

  lemma ModOfShifted(x: int, m: int)
    requires 0 < m && 0 <= x - m < m
    ensures x % m == x - m
  {
  }

  lemma ModOfNegative(x: int, m: int)
    requires 0 < m && -m <= x < 0
    ensures x % m == x + m
  {
  }

  /** `&a + &o`: the address `o` words past `a`.
      Below the width of `U` the result is the exact sum; at or above it a
      debug build panics and a release build wraps. An offset of zero is
      the identity. */
  function Add(build: Build, bits: nat, a: Address, o: AddressOffset): (r: Option<Address>)
    requires InU(bits, a.value) && InU(bits, o.value)
    ensures a.value + o.value < Pow2(bits) ==> r == Some(Address(a.value + o.value))
    ensures build == Debug ==> (r.None? <==> a.value + o.value >= Pow2(bits))
    ensures build == Release ==> r.Some?
    ensures r.Some? ==> InU(bits, r.value.value) && r.value.value == (a.value + o.value) % Pow2(bits)
    ensures o.value == 0 ==> r == Some(a)
  {
    var sum := a.value + o.value;
    if sum < Pow2(bits) then
      ModOfSmall(sum, Pow2(bits));
      Some(Address(sum))
    else if build == Debug then
      None
    else
      ModOfShifted(sum, Pow2(bits));
      Some(Address(sum - Pow2(bits)))
  }

  /** `&a - &o`: the address `o` words before `a`.
      When `o` does not exceed `a` the result is the exact difference;
      otherwise a debug build panics and a release build wraps. An offset
      of zero is the identity. */
  function Sub(build: Build, bits: nat, a: Address, o: AddressOffset): (r: Option<Address>)
    requires InU(bits, a.value) && InU(bits, o.value)
    ensures o.value <= a.value ==> r == Some(Address(a.value - o.value))
    ensures build == Debug ==> (r.None? <==> a.value < o.value)
    ensures build == Release ==> r.Some?
    ensures r.Some? ==> InU(bits, r.value.value) && r.value.value == (a.value - o.value) % Pow2(bits)
    ensures o.value == 0 ==> r == Some(a)
  {
    var diff := a.value - o.value;
    if 0 <= diff then
      ModOfSmall(diff, Pow2(bits));
      Some(Address(diff))
    else if build == Debug then
      None
    else
      ModOfNegative(diff, Pow2(bits));
      Some(Address(diff + Pow2(bits)))
  }

  /** Round trip: `(a + o) - o == a` whenever `a + o` did not panic, on
      either build (on a release build even when the sum wrapped). */
  lemma AddThenSub(build: Build, bits: nat, a: Address, o: AddressOffset)
    requires InU(bits, a.value) && InU(bits, o.value)
    requires Add(build, bits, a, o).Some?
    ensures Sub(build, bits, Add(build, bits, a, o).value, o) == Some(a)
  {
  }

  /** Round trip the other way: `(a - o) + o == a` whenever `a - o` did not
      panic, on either build. */
  lemma SubThenAdd(build: Build, bits: nat, a: Address, o: AddressOffset)
    requires InU(bits, a.value) && InU(bits, o.value)
    requires Sub(build, bits, a, o).Some?
    ensures Add(build, bits, Sub(build, bits, a, o).value, o) == Some(a)
  {
  }

  /** The two builds differ only where the debug build panics. */
  lemma BuildsAgreeWithoutOverflow(bits: nat, a: Address, o: AddressOffset)
    requires InU(bits, a.value) && InU(bits, o.value)
    ensures Add(Debug, bits, a, o).Some? ==> Add(Release, bits, a, o) == Add(Debug, bits, a, o)
    ensures Sub(Debug, bits, a, o).Some? ==> Sub(Release, bits, a, o) == Sub(Debug, bits, a, o)
  {
  }
}
