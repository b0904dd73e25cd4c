/** The storage capabilities: single-word read and write, slice read and
    write, page erase and geometry introspection.

    Each capability is a record of operations over the driver's own state
    `S`. An operation takes the device exclusively (`&mut self`), so it is
    a function from the state before the call to the state after it and
    the call's non-blocking outcome. Each record has its own error kind
    `E`. Nothing here fixes a device: the contracts the source documents
    are predicates that a driver's records may satisfy. */
module Storage {
  import opened Nb
  import opened Quantities

  /** The driver state after one call and the call's outcome. */
  datatype Step<S, T, E> = Step(state: S, result: NbResult<T, E>)

  /** A slice transfer: driver state after the call, the caller's buffer
      after the call, and the outcome. */
  datatype SliceStep<S, W, E> = SliceStep(state: S, buf: seq<W>, result: NbResult<(), E>)

  /** `SingleRead`: read the word stored at an address. */
  datatype SingleRead<!S, W, E> = SingleRead(tryRead: (S, Address) -> Step<S, W, E>)

  /** `SingleWrite`: write one word to an address. */
  datatype SingleWrite<!S, !W, E> = SingleWrite(tryWrite: (S, Address, W) -> Step<S, (), E>)

  /** `MultiRead`: read the words stored from an address to fill a buffer. */
  datatype MultiRead<!S, !W, E> = MultiRead(tryReadSlice: (S, Address, seq<W>) -> SliceStep<S, W, E>)

  /** `MultiWrite`: write a buffer from an address; the buffer is mutable
      because bus implementations may clobber it. */
  datatype MultiWrite<!S, !W, E> = MultiWrite(tryWriteSlice: (S, Address, seq<W>) -> SliceStep<S, W, E>)

  /** `ErasePage`: erase a page, identified by index or by its address. */
  datatype ErasePage<!S, E> = ErasePage(
    tryErasePage: (S, Page) -> Step<S, (), E>,
    tryEraseAddress: (S, Address) -> Step<S, (), E>)

  /** `StorageSize`: start address, total size in words, and the size of
      the page an address lies in. */
  datatype StorageSize<!S, E> = StorageSize(
    tryStartAddress: S -> Step<S, Address, E>,
    tryTotalSize: S -> Step<S, AddressOffset, E>,
    tryPageSize: (S, Address) -> Step<S, AddressOffset, E>)

  // ---------------------------------------------------------------------
  // The documented contracts

  /** A slice read that completes has filled the whole buffer with the
      words that reading one word at a time from `address` gives, whenever
      that iteration completes too. */
  ghost predicate ReadSliceFillsBuffer<S(!new), W(!new), E, E2>(
    mr: MultiRead<S, W, E>, sr: SingleRead<S, W, E2>, bits: nat)
  {
    forall s: S, a: Address, buf: seq<W> |
      a.value + |buf| <= Pow2(bits) &&
      mr.tryReadSlice(s, a, buf).result.Ready? ::
        && |mr.tryReadSlice(s, a, buf).buf| == |buf|
        && (IteratedReads(sr, bits, s, a, 0, |buf|).result.Ready? ==>
              mr.tryReadSlice(s, a, buf).buf == IteratedReads(sr, bits, s, a, 0, |buf|).result.value)
  }

  /** A device that is not paged reports its total size as the size of the
      page of every address. */
  ghost predicate PageSizeIsTotalSize<S(!new), E>(sz: StorageSize<S, E>)
  {
    forall s: S, a: Address |
      sz.tryPageSize(s, a).result.Ready? && sz.tryTotalSize(s).result.Ready? ::
        sz.tryPageSize(s, a).result.value == sz.tryTotalSize(s).result.value
  }

  /** On a paged device the only address that may be erased is the start of
      a page: at any other address the erase never completes. */
  ghost predicate EraseOnlyAtPageStart<S(!new), E>(er: ErasePage<S, E>, isPageStart: Address -> bool)
  {
    forall s: S, a: Address | !isPageStart(a) :: !er.tryEraseAddress(s, a).result.Ready?
  }

  // ---------------------------------------------------------------------
  // Slice transfers as iterated single-word transfers

  /** `address + &AddressOffset(i)`, the address of word `i` of a slice at
      `address`, which the slice operations never let overflow. */
  function WordAddress(bits: nat, address: Address, i: nat): (r: Address)
    requires address.value + i < Pow2(bits)
    ensures r.value == address.value + i
  {
    Add(Debug, bits, address, AddressOffset(i)).value
  }

  /** Adds the words already read in front of an outcome that completed. */
  function Prepend<S, W, E>(ws: seq<W>, st: Step<S, seq<W>, E>): Step<S, seq<W>, E>
  {
    if st.result.Ready? then Step(st.state, Ready(ws + st.result.value)) else st
  }

  lemma PrependNothing<S, W, E>(st: Step<S, seq<W>, E>)
    ensures Prepend([], st) == st
  {
    if st.result.Ready? {
      assert [] + st.result.value == st.result.value;
    }
  }

  lemma PrependTwice<S, W, E>(xs: seq<W>, ys: seq<W>, st: Step<S, seq<W>, E>)
    ensures Prepend(xs, Prepend(ys, st)) == Prepend(xs + ys, st)
  {
    if st.result.Ready? {
      assert xs + (ys + st.result.value) == (xs + ys) + st.result.value;
    }
  }

  /** Reading words `i` to `n` of a slice at `address` one `try_read` at a
      time, threading the driver state and stopping at the first call that
      does not complete. When it completes, it holds one word per index. */
  function IteratedReads<S, W, E>(sr: SingleRead<S, W, E>, bits: nat, s: S, address: Address, i: nat, n: nat)
    : (r: Step<S, seq<W>, E>)
    requires address.value + n <= Pow2(bits) && i <= n
    ensures r.result.Ready? ==> |r.result.value| == n - i
    decreases n - i
  {
    if i == n then Step(s, Ready([]))
    else
      var first := sr.tryRead(s, WordAddress(bits, address, i));
      if first.result.Ready? then
        Prepend([first.result.value], IteratedReads(sr, bits, first.state, address, i + 1, n))
      else
        Step(first.state, Forward(first.result))
  }

  /** Writing words `i` to `n` of `buf` from `address` one `try_write` at a
      time, threading the driver state and stopping at the first call that
      does not complete. */
  function IteratedWrites<S, W, E>(sw: SingleWrite<S, W, E>, bits: nat, s: S, address: Address, buf: seq<W>, i: nat, n: nat)
    : Step<S, (), E>
    requires address.value + n <= Pow2(bits) && i <= n <= |buf|
    decreases n - i
  {
    if i == n then Step(s, Ready(()))
    else
      var first := sw.tryWrite(s, WordAddress(bits, address, i), buf[i]);
      if first.result.Ready? then IteratedWrites(sw, bits, first.state, address, buf, i + 1, n)
      else first
  }

  /** `try_read_slice` implemented by iterating `try_read` over the slice.
      It leaves the driver state and outcome of the iteration, and on
      `Ready` the buffer holds exactly the words read. */
  method ReadSliceBySingleReads<S, W, E>(sr: SingleRead<S, W, E>, bits: nat, s: S, address: Address, buf: array<W>)
    returns (s': S, r: NbResult<(), E>)
    requires address.value + buf.Length <= Pow2(bits)
    modifies buf
    ensures s' == IteratedReads(sr, bits, s, address, 0, buf.Length).state
    ensures r == Discard(IteratedReads(sr, bits, s, address, 0, buf.Length).result)
    ensures r.Ready? ==> buf[..] == IteratedReads(sr, bits, s, address, 0, buf.Length).result.value
  {
    s' := s;
    var i := 0;
    PrependNothing(IteratedReads(sr, bits, s, address, 0, buf.Length));
    while i < buf.Length
      invariant 0 <= i <= buf.Length
      invariant IteratedReads(sr, bits, s, address, 0, buf.Length)
             == Prepend(buf[..i], IteratedReads(sr, bits, s', address, i, buf.Length))
    {
      var step := sr.tryRead(s', WordAddress(bits, address, i));
      if !step.result.Ready? {
        s', r := step.state, Discard(step.result);
        return;
      }
      ghost var before := buf[..i];
      buf[i] := step.result.value;
      assert buf[..i + 1] == before + [step.result.value];
      PrependTwice(before, [step.result.value], IteratedReads(sr, bits, step.state, address, i + 1, buf.Length));
      s', i := step.state, i + 1;
    }
    assert buf[..] == buf[..i] + [];
    r := Ready(());
  }

  /** `try_write_slice` implemented by iterating `try_write` over the
      slice. It leaves the driver state and outcome of the iteration and
      does not touch the buffer. */
  method WriteSliceBySingleWrites<S, W, E>(sw: SingleWrite<S, W, E>, bits: nat, s: S, address: Address, buf: array<W>)
    returns (s': S, r: NbResult<(), E>)
    requires address.value + buf.Length <= Pow2(bits)
    ensures Step(s', r) == IteratedWrites(sw, bits, s, address, buf[..], 0, buf.Length)
  {
    s' := s;
    var i := 0;
    while i < buf.Length
      invariant 0 <= i <= buf.Length
      invariant IteratedWrites(sw, bits, s, address, buf[..], 0, buf.Length)
             == IteratedWrites(sw, bits, s', address, buf[..], i, buf.Length)
    {
      var step := sw.tryWrite(s', WordAddress(bits, address, i), buf[i]);
      if !step.result.Ready? {
        s', r := step.state, step.result;
        return;
      }
      s', i := step.state, i + 1;
    }
    r := Ready(());
  }

  // ---------------------------------------------------------------------
  // Properties of the slice contracts

  lemma {:induction false} IteratedReadsSplitAt<S, W, E>(
    sr: SingleRead<S, W, E>, bits: nat, s: S, address: Address, i: nat, m: nat, n: nat)
    requires address.value + n <= Pow2(bits) && i <= m <= n
    ensures var first := IteratedReads(sr, bits, s, address, i, m);
            IteratedReads(sr, bits, s, address, i, n)
              == if first.result.Ready? then Prepend(first.result.value, IteratedReads(sr, bits, first.state, address, m, n))
                 else first
    decreases m - i
  {
    if i == m {
      PrependNothing(IteratedReads(sr, bits, s, address, m, n));
    } else {
      var step := sr.tryRead(s, WordAddress(bits, address, i));
      if step.result.Ready? {
        IteratedReadsSplitAt(sr, bits, step.state, address, i + 1, m, n);
        var rest := IteratedReads(sr, bits, step.state, address, i + 1, m);
        if rest.result.Ready? {
          PrependTwice([step.result.value], rest.result.value,
            IteratedReads(sr, bits, rest.state, address, m, n));
        }
      }
    }
  }

  lemma {:induction false} IteratedReadsRebase<S, W, E>(
    sr: SingleRead<S, W, E>, bits: nat, s: S, address: Address, m: nat, j: nat, n: nat)
    requires address.value + n <= Pow2(bits) && m + j <= n
    ensures IteratedReads(sr, bits, s, address, m + j, n)
         == IteratedReads(sr, bits, s, Address(address.value + m), j, n - m)
    decreases n - m - j
  {
    if m + j < n {
      assert WordAddress(bits, address, m + j) == WordAddress(bits, Address(address.value + m), j);
      var step := sr.tryRead(s, WordAddress(bits, address, m + j));
      IteratedReadsRebase(sr, bits, step.state, address, m, j + 1, n);
    }
  }

  /** Reading a slice of `n` words at `address` is reading its first `m`
      words and then, from the state that leaves, the remaining `n - m`
      words at `address + m`: a driver may split a slice read, at a page
      boundary say, without changing what it delivers. */
  lemma ReadSliceSplit<S, W, E>(sr: SingleRead<S, W, E>, bits: nat, s: S, address: Address, m: nat, n: nat)
    requires address.value + n <= Pow2(bits) && m <= n
    ensures var first := IteratedReads(sr, bits, s, address, 0, m);
            IteratedReads(sr, bits, s, address, 0, n)
              == if first.result.Ready?
                 then Prepend(first.result.value, IteratedReads(sr, bits, first.state, Address(address.value + m), 0, n - m))
                 else first
  {
    IteratedReadsSplitAt(sr, bits, s, address, 0, m, n);
    var first := IteratedReads(sr, bits, s, address, 0, m);
    IteratedReadsRebase(sr, bits, first.state, address, m, 0, n);
  }

  lemma {:induction false} IteratedWritesSplitAt<S, W, E>(
    sw: SingleWrite<S, W, E>, bits: nat, s: S, address: Address, buf: seq<W>, i: nat, m: nat, n: nat)
    requires address.value + n <= Pow2(bits) && i <= m <= n <= |buf|
    ensures var first := IteratedWrites(sw, bits, s, address, buf, i, m);
            IteratedWrites(sw, bits, s, address, buf, i, n)
              == if first.result.Ready? then IteratedWrites(sw, bits, first.state, address, buf, m, n) else first
    decreases m - i
  {
    if i < m {
      var step := sw.tryWrite(s, WordAddress(bits, address, i), buf[i]);
      if step.result.Ready? {
        IteratedWritesSplitAt(sw, bits, step.state, address, buf, i + 1, m, n);
      }
    }
  }

  lemma {:induction false} IteratedWritesRebase<S, W, E>(
    sw: SingleWrite<S, W, E>, bits: nat, s: S, address: Address, buf: seq<W>, m: nat, j: nat, n: nat)
    requires address.value + n <= Pow2(bits) && m + j <= n <= |buf|
    ensures IteratedWrites(sw, bits, s, address, buf, m + j, n)
         == IteratedWrites(sw, bits, s, Address(address.value + m), buf[m..n], j, n - m)
    decreases n - m - j
  {
    if m + j < n {
      assert WordAddress(bits, address, m + j) == WordAddress(bits, Address(address.value + m), j);
      assert buf[m..n][j] == buf[m + j];
      var step := sw.tryWrite(s, WordAddress(bits, address, m + j), buf[m + j]);
      IteratedWritesRebase(sw, bits, step.state, address, buf, m, j + 1, n);
    }
  }

  /** Writing a slice at `address` is writing its first `m` words and then,
      if that completed, the rest of the slice at `address + m`: a driver
      may split a slice write at a page boundary. */
  lemma WriteSliceSplit<S, W, E>(sw: SingleWrite<S, W, E>, bits: nat, s: S, address: Address, buf: seq<W>, m: nat)
    requires address.value + |buf| <= Pow2(bits) && m <= |buf|
    ensures var first := IteratedWrites(sw, bits, s, address, buf[..m], 0, m);
            IteratedWrites(sw, bits, s, address, buf, 0, |buf|)
              == if first.result.Ready?
                 then IteratedWrites(sw, bits, first.state, Address(address.value + m), buf[m..], 0, |buf| - m)
                 else first
  {
    IteratedWritesSplitAt(sw, bits, s, address, buf, 0, m, |buf|);
    IteratedWritesRebase(sw, bits, s, address, buf, 0, 0, m);
    assert buf[0..m] == buf[..m];
    var first := IteratedWrites(sw, bits, s, address, buf, 0, m);
    IteratedWritesRebase(sw, bits, first.state, address, buf, m, 0, |buf|);
    assert buf[m..|buf|] == buf[m..];
  }

  /** When every `try_read` from state `s` at an address of the slice
      completes without changing the state and yields the word `mem` holds
      at that address, iterating the
      reads over a slice completes in state `s` with word `k` read from
      `address + k`. */
  lemma {:induction false} IteratedReadsOfStableDevice<S, W, E>(
    sr: SingleRead<S, W, E>, bits: nat, s: S, mem: Address -> W, address: Address, i: nat, n: nat)
    requires address.value + n <= Pow2(bits) && i <= n
    requires forall x: Address | address.value + i <= x.value < address.value + n ::
               sr.tryRead(s, x) == Step(s, Ready(mem(x)))
    ensures IteratedReads(sr, bits, s, address, i, n).state == s
    ensures IteratedReads(sr, bits, s, address, i, n).result.Ready?
    ensures forall k :: 0 <= k < n - i ==>
              IteratedReads(sr, bits, s, address, i, n).result.value[k] == mem(Address(address.value + i + k))
    decreases n - i
  {
    if i < n {
      assert WordAddress(bits, address, i) == Address(address.value + i);
      IteratedReadsOfStableDevice(sr, bits, s, mem, address, i + 1, n);
      var rest := IteratedReads(sr, bits, s, address, i + 1, n).result.value;
      var whole := IteratedReads(sr, bits, s, address, i, n).result.value;
      assert whole == [mem(Address(address.value + i))] + rest;
      forall k | 0 <= k < n - i
        ensures whole[k] == mem(Address(address.value + i + k))
      {
        if k > 0 {
          assert whole[k] == rest[k - 1];
        }
      }
    }
  }

  /** On a device whose reads from `s` at the addresses of the slice all
      complete and have no side effects, a slice read that completes has filled the whole buffer, `buf[k]` being the
      word `try_read(address + k)` gives. */
  lemma ReadSliceMatchesSingleReads<S(!new), W(!new), E, E2>(
    mr: MultiRead<S, W, E>, sr: SingleRead<S, W, E2>, bits: nat, s: S, mem: Address -> W,
    address: Address, buf: seq<W>)
    requires ReadSliceFillsBuffer(mr, sr, bits)
    requires forall x: Address | address.value <= x.value < address.value + |buf| ::
               sr.tryRead(s, x) == Step(s, Ready(mem(x)))
    requires address.value + |buf| <= Pow2(bits)
    requires mr.tryReadSlice(s, address, buf).result.Ready?
    ensures |mr.tryReadSlice(s, address, buf).buf| == |buf|
    ensures forall k :: 0 <= k < |buf| ==>
              Ready(mr.tryReadSlice(s, address, buf).buf[k]) == sr.tryRead(s, WordAddress(bits, address, k)).result
  {
    IteratedReadsOfStableDevice(sr, bits, s, mem, address, 0, |buf|);
  }

  /** On a device that is not paged, every address reports the same page
      size: the device is one page. */
  lemma NonPagedIsOnePage<S(!new), E>(sz: StorageSize<S, E>, s: S, a: Address, b: Address)
    requires PageSizeIsTotalSize(sz)
    requires sz.tryTotalSize(s).result.Ready?
    requires sz.tryPageSize(s, a).result.Ready? && sz.tryPageSize(s, b).result.Ready?
    ensures sz.tryPageSize(s, a).result.value == sz.tryPageSize(s, b).result.value
            == sz.tryTotalSize(s).result.value
  {
  }

  /** An erase by address that completes was aimed at the start of a page. */
  lemma ErasedAddressIsPageStart<S(!new), E>(er: ErasePage<S, E>, isPageStart: Address -> bool, s: S, a: Address)
    requires EraseOnlyAtPageStart(er, isPageStart)
    requires er.tryEraseAddress(s, a).result.Ready?
    ensures isPageStart(a)
  {
  }
}
