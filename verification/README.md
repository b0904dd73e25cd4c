# embedded-storage: storage capabilities and address arithmetic

A Dafny model of `src/storage.rs`, the interface layer through which
embedded storage drivers expose storage devices (Flash, EEPROM, RAM) to
higher-level code. The file defines three newtype quantities (`Address<U>`,
`AddressOffset<U>`, `Page<U>`), the two arithmetic operations between them,
and six capability traits: `SingleRead`, `SingleWrite`, `MultiRead`,
`MultiWrite`, `ErasePage` and `StorageSize`. Every trait method returns an
`nb::Result`, meaning it either completes, reports that the device is busy, or fails.

Files:

- `nb.dfy` (module `Nb`) is the three-way non-blocking outcome
  `Ready(T) | WouldBlock | Err(E)`. It stands in for `nb::Result`.
- `quantities.dfy` (module `Quantities`) holds the address quantities and
  `&Address + &AddressOffset` / `&Address - &AddressOffset`.
  - The generic unsigned type `U` is modelled by its bit width `bits`. A
    well-formed value is below `Pow2(bits)`.
  - Rust's integer overflow is modelled explicitly by a `Build` parameter.
    A `Debug` build panics on overflow or underflow (`None`). A `Release`
    build wraps modulo `2^bits`.
  - Arithmetic exists only between an `Address` and an `AddressOffset`, and
    it always yields an `Address`. There is no operation on two addresses.
  - The operands are values, so they cannot change. This matches the
    source, which only borrows them.
- `storage.dfy` (module `Storage`) holds the capabilities.
  - Each trait is a datatype record of its operations. Each operation is a
    function value over the driver's state `S`. A `&mut self` call is a
    step from the state before the call to the state after it, together
    with the call's outcome.
  - Each record carries its own error type `E`, like the trait's associated
    `Error` type.
  - A `&mut [Word]` buffer is a sequence that the slice operations return
    possibly changed.
  - The contracts that the doc comments state are ghost predicates over
    these records. No concrete device is defined.
  - "Iterating over the slice is a valid method to impl this trait" is
    modelled by `IteratedReads` / `IteratedWrites`, and by the two methods
    that implement a slice transfer that way over an `array`.

The substantial proofs are the induction lemmas about the iterated slice
transfers and the two loops:
- `ReadSliceSplit` and `WriteSliceSplit` show that a slice transfer may be split at any point.
- `IteratedReadsOfStableDevice` and `ReadSliceMatchesSingleReads` prove the "fills the buffer" promise.
- `ReadSliceBySingleReads` and `WriteSliceBySingleWrites` are the loops proved against the iterated definitions.

The page-size and erase lemmas are one-step consequences of the contracts they assume.

## Model

| member | source | states |
|---|---|---|
| `Quantities.Add` | src/storage.rs:14-23 | `a + o` is exactly `Address(a.0 + o.0)` when the sum fits in `U`. A debug build panics exactly when the sum overflows `U`. A release build never panics. Any result is a value of `U` congruent to the sum modulo `2^bits`. Adding `AddressOffset(0)` gives `a` back. |
| `Quantities.Sub` | src/storage.rs:26-35 | `a - o` is exactly `Address(a.0 - o.0)` when `o.0 <= a.0`. A debug build panics exactly when `o.0 > a.0`. A release build never panics. Any result is a value of `U` congruent to the difference modulo `2^bits`. Subtracting `AddressOffset(0)` gives `a` back. |
| `Quantities.AddThenSub` | src/storage.rs:14-35 | Round trip: `(a + o) - o == a` on either build whenever `a + o` did not panic. This includes a release-build sum that wrapped. |
| `Quantities.SubThenAdd` | src/storage.rs:14-35 | Round trip: `(a - o) + o == a` on either build whenever `a - o` did not panic. |
| `Quantities.BuildsAgreeWithoutOverflow` | src/storage.rs:14-35 | Debug and release builds give the same address wherever the debug build does not panic. |
| `Storage.IteratedReads` | src/storage.rs:69-97 | The reference definition of "iterating over the slice" with `try_read`: word `i` is read at `address + i`, the driver state is threaded through the calls, and the first call that does not complete ends the iteration with that outcome. When it completes, it holds exactly one word per index of the slice. |
| `Storage.ReadSliceBySingleReads` | src/storage.rs:69-97 | `try_read_slice` implemented by iterating `try_read` over an array buffer. The driver state and outcome are those of the iteration. On `Ready`, the buffer holds exactly the words read, with word `i` read at `address + i`. |
| `Storage.WriteSliceBySingleWrites` | src/storage.rs:100-115 | `try_write_slice` implemented by iterating `try_write` over the buffer. The driver state and outcome are those of writing `buf[i]` at `address + i` for each `i` in turn, stopping at the first call that does not complete. |
| `Storage.ReadSliceSplit` | src/storage.rs:93-97 | Reading `n` words at `address` is the same as two steps. First read `m` words at `address`. Then, if that completed, read the remaining `n - m` words at `address + m`, starting from the state the first part left. So a driver may split a slice read, for example at a page boundary. |
| `Storage.WriteSliceSplit` | src/storage.rs:134-136 | Writing a buffer at `address` is the same as two steps. First write its first `m` words. Then, if that completed, write the rest at `address + m`. So a driver may split a write that crosses a page. |
| `Storage.IteratedReadsOfStableDevice` | src/storage.rs:47-55 | Suppose every `try_read` from a state at an address of the slice completes, leaves the state unchanged and yields the stored word. Nothing is assumed about addresses outside the slice, so a device that fails reads outside its range qualifies. Then iterating the reads over the slice completes and leaves the state unchanged, and word `k` is the word stored at `address + k`. |
| `Storage.ReadSliceMatchesSingleReads` | src/storage.rs:78-97 | Take a `MultiRead` that satisfies `ReadSliceFillsBuffer`, on a device where every single read at an address of the slice succeeds without side effects. When its `try_read_slice` completes, the buffer keeps its length, and `buf[k]` is what `try_read(address + k)` returns, for every `k`. |
| `Storage.NonPagedIsOnePage` | src/storage.rs:147-150 | On a non-paged device, whenever `try_page_size` and `try_total_size` complete from the same state, `try_page_size` returns the offset `try_total_size` gives. So every address reports the same page size. |
| `Storage.ErasedAddressIsPageStart` | src/storage.rs:130-131 | On a paged device, an erase by address that completes was aimed at the start of a page. No other address is a valid erase request. |
| `Storage.ReadSliceFillsBuffer` | src/storage.rs:69-97 | The slice-read contract. Whenever `try_read_slice` completes for a slice that lies within `U`, the buffer keeps its length. If iterating `try_read` over the slice from the same state also completes, the buffer equals the words that iteration reads. |
| `Storage.PageSizeIsTotalSize` | src/storage.rs:144-150 | The non-paged page-size contract. Whenever `try_page_size(a)` and `try_total_size()` both complete from the same state, they return the same offset, for every address `a`. |
| `Storage.EraseOnlyAtPageStart` | src/storage.rs:127-131 | The erase-by-address contract of a paged device. `try_erase_address(a)` never completes at an address that is not the start of a page. |
| `Storage.IteratedWrites` | src/storage.rs:100-115 | The reference definition of "iterating over the slice" with `try_write`: `buf[i]` is written at `address + i` for `i` in turn, the driver state is threaded through the calls, and the first call that does not complete ends the iteration with that outcome. |

## Left out

- Traits: the six Rust traits are modelled as datatype records of function values over an abstract driver state, with the documented contracts as ghost predicates over those records. They are not Dafny traits, and no concrete driver is defined.
- `nb` crate: replaced by the local `NbResult` datatype. Re-polling after `WouldBlock`, liveness and hardware timing are scheduling behaviour and are not modelled.
- The doc-comment examples at src/storage.rs:48-54 and src/storage.rs:79-92 are left out. They read memory-mapped storage through raw pointers in `unsafe` code. The second also declares a return type inconsistent with the trait.
- The Flash note at src/storage.rs:120 is left out. It says Flash writes cannot set a bit to 1, which is device behaviour and not something this code does. Erased polarity and page geometry are also device-specific, and none is defined.
- `SingleWrite.try_write`, `ErasePage.try_erase_page` and `StorageSize.try_start_address` are present as record fields only, and no predicate constrains them. Their doc comments name what they do, but the model has no stored contents or geometry against which to state it. In particular, there is no read-after-write property, because the source promises none.
- `MultiWrite.try_write_slice`: "Writes the buffer to the address" is not stated as a predicate, for the same reason: there is no model of stored contents. Requiring the driver state to equal the one `IteratedWrites` leaves would overstate the promise. The iterated form it permits is modelled by `IteratedWrites` and `WriteSliceBySingleWrites`.
- Storage.ReadSliceFillsBuffer: the buffer contents are constrained only when iterating `try_read` from the same state also completes. A slice read paired with a `try_read` that always answers `WouldBlock` is therefore unconstrained. The predicate also needs a companion `SingleRead`, but `MultiRead` has no `SingleRead` supertrait. So for a driver that implements only `MultiRead`, "the words stored at the address" has no anchor here, because the model defines no stored contents.
- Storage.ErasedAddressIsPageStart: the source says only that the start of a page is "the only valid address". At any other address the model only says that the erase never returns `Ready`. It does not require `Err`. A busy driver may answer `WouldBlock` first. Which addresses start a page is a parameter, because the source defines no page geometry.
- Storage.NonPagedIsOnePage: page size and total size are compared only when both calls complete from the same driver state. The source says nothing about a call that is busy or fails.
- Slice transfers: the iterated forms are defined only for slices that lie within `U` (`address + len <= 2^bits`). A word address inside the slice therefore never overflows.
- Lifetimes, borrow annotations and `Copy` bounds are left out. The only thing they say here is that the operands are read-only, which value semantics already gives.
- The unused `Word` type parameter of `StorageSize` is dropped.
