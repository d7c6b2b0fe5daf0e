/** `SmallBytes<N>`: a byte buffer that keeps up to `N` bytes inline and
    spills to the heap beyond that, and its `BufMut` writer contract.

    The underlying `SmallVec<[u8; N]>` is modelled by its state: a backing
    array whose length is the capacity, the number `len` of initialised bytes
    at its front, and the one-way `spilled` flag. Inline and heap storage are
    the same array here; only the capacity and the flag tell them apart, which
    is all a caller of `SmallBytes` can observe. */
module Lib {
  import opened Primitives
  import opened BufSource

  /** `n` copies of `v`. */
  function Repeat(v: u8, n: nat): (r: seq<u8>)
    ensures |r| == n
    ensures forall i :: 0 <= i < n ==> r[i] == v
  {
    if n == 0 then [] else [v] + Repeat(v, n - 1)
  }

  /** The contents after `SmallVec::resize(newLen, v)` on contents `s`: a
      prefix when shrinking, `s` padded with `v` when growing. */
  function Resized(s: seq<u8>, newLen: nat, v: u8): (r: seq<u8>)
    ensures |r| == newLen
    ensures forall i :: 0 <= i < newLen && i < |s| ==> r[i] == s[i]
    ensures forall i :: |s| <= i < newLen ==> r[i] == v
  {
    if newLen <= |s| then s[..newLen] else s + Repeat(v, newLen - |s|)
  }

  /** Truncated bytes never come back: shrinking to `k` and growing again
      exposes only the fill value after position `k`. */
  lemma ResizedForgetsTruncated(s: seq<u8>, k: nat, n: nat, v: u8, w: u8)
    requires k <= |s| && k <= n
    ensures Resized(Resized(s, k, v), n, w) == s[..k] + Repeat(w, n - k)
  {
  }

  /** The `ptr::copy_nonoverlapping` at the heart of every append: writes
      `s` into `a` at offset `at`, leaving every other element alone. */
  method WriteAt(a: array<u8>, at: nat, s: seq<u8>)
    requires at + |s| <= a.Length
    modifies a
    ensures a[..at] == old(a[..at])
    ensures a[at..at + |s|] == s
    ensures a[at + |s|..] == old(a[at + |s|..])
  {
    var i := 0;
    while i < |s|
      invariant i <= |s|
      invariant a[..at] == old(a[..at])
      invariant a[at..at + i] == s[..i]
      invariant a[at + |s|..] == old(a[at + |s|..])
    {
      a[at + i] := s[i];
      i := i + 1;
    }
  }

  /** The outcome of `advance_mut`: committed, or the panic
      "Unable to advance {cnt} with {remaining} remaining". */
  datatype Outcome = Done | Panicked(cnt: nat, remaining: nat)

  class SmallBytes {
    /** The inline capacity, the type parameter `N`. */
    const N: nat
    /** The backing store; its length is the capacity. */
    var data: array<u8>
    /** The number of initialised bytes at the front of `data`. */
    var len: nat
    /** Whether the store has moved to the heap. */
    var spilled: bool
    /** How many times the store has been reallocated. */
    ghost var reallocations: nat

    ghost predicate Valid()
      reads this
    {
      && len <= data.Length
      && N <= data.Length
      && data.Length <= ISIZE_MAX
      && spilled == (N < data.Length)
    }

    /** The initialised bytes: the `AsRef<[u8]>` view, exactly `len` long. */
    function AsRef(): (r: seq<u8>)
      reads this, data
      requires Valid()
      ensures |r| == len
    {
      data[..len]
    }

    /** `SmallBytes::new` (and `Default::default`): empty and inline. */
    constructor (n: nat)
      requires n <= ISIZE_MAX
      ensures Valid() && fresh(data)
      ensures N == n && AsRef() == [] && Capacity() == n && !spilled
    {
      N := n;
      data := new u8[n];
      len := 0;
      spilled := false;
      reallocations := 0;
    }

    /** `SmallBytes::len`. */
    function Len(): (r: nat)
      reads this, data
      requires Valid()
      ensures r == |AsRef()| && r <= Capacity()
    {
      len
    }

    /** `SmallBytes::is_empty`. */
    function IsEmpty(): (r: bool)
      reads this, data
      requires Valid()
      ensures r <==> AsRef() == []
    {
      len == 0
    }

    /** `SmallBytes::capacity`: never below the inline capacity, and strictly
        above it exactly when the store has spilled. */
    function Capacity(): (r: nat)
      reads this
      requires Valid()
      ensures N <= r <= ISIZE_MAX && len <= r
      ensures spilled <==> N < r
    {
      data.Length
    }

    /** `BufMut::remaining_mut`: `isize::MAX - len`, which cannot underflow. */
    function RemainingMut(): (r: nat)
      reads this, data
      requires Valid()
      ensures r + |AsRef()| == ISIZE_MAX
    {
      ISIZE_MAX - len
    }

    /** Moves the initialised bytes to a fresh, larger store. */
    method Grow(newCap: nat)
      requires Valid() && data.Length < newCap <= ISIZE_MAX
      modifies this
      ensures Valid() && fresh(data) && data.Length == newCap
      ensures len == old(len) && AsRef() == old(AsRef()) && spilled
      ensures reallocations == old(reallocations) + 1
    {
      var grown := new u8[newCap];
      WriteAt(grown, 0, data[..len]);
      assert grown[..len] == data[..len] by {
        assert grown[0..0 + len] == grown[..len];
      }
      data := grown;
      spilled := N < newCap;
      reallocations := reallocations + 1;
    }

    /** `SmallBytes::reserve`: afterwards at least `additional` bytes fit
        after the contents; nothing moves when they already did. */
    method Reserve(additional: nat)
      requires Valid() && len + additional <= ISIZE_MAX
      modifies this
      ensures Valid() && len == old(len) && AsRef() == old(AsRef())
      ensures len + additional <= Capacity()
      ensures old(Capacity()) <= Capacity() && (old(spilled) ==> spilled)
      ensures data == old(data) || fresh(data)
      ensures additional <= old(Capacity() - len) ==> data == old(data)
      ensures reallocations <= old(reallocations) + 1
      ensures additional <= old(Capacity() - len) ==> reallocations == old(reallocations)
    {
      if data.Length - len < additional {
        Grow(len + additional);
      }
    }

    /** `SmallBytes::resize`: truncates to a prefix, or pads with `value`. */
    method Resize(newLen: nat, value: u8)
      requires Valid() && newLen <= ISIZE_MAX
      modifies this, data
      ensures Valid() && AsRef() == Resized(old(AsRef()), newLen, value)
      ensures newLen <= Capacity()
      ensures old(Capacity()) <= Capacity() && (old(spilled) ==> spilled)
      ensures data == old(data) || fresh(data)
      ensures newLen <= old(len) ==> data == old(data)
    {
      if newLen > len {
        Reserve(newLen - len);
        WriteAt(data, len, Repeat(value, newLen - len));
        len := newLen;
      } else {
        len := newLen;
      }
    }

    /** `SmallBytes::extend_from_slice`: appends `s`. */
    method ExtendFromSlice(s: seq<u8>)
      requires Valid() && len + |s| <= ISIZE_MAX
      modifies this, data
      ensures Valid() && AsRef() == old(AsRef()) + s
      ensures RemainingMut() == old(RemainingMut()) - |s|
      ensures old(Capacity()) <= Capacity() && (old(spilled) ==> spilled)
      ensures data == old(data) || fresh(data)
      ensures old(len) + |s| <= old(Capacity()) ==> data == old(data)
      ensures reallocations <= old(reallocations) + 1
      ensures old(len) + |s| <= old(Capacity()) ==> reallocations == old(reallocations)
    {
      Reserve(|s|);
      WriteAt(data, len, s);
      len := len + |s|;
    }

    /** `BufMut::advance_mut`: commits `cnt` bytes written at the tail, or
        panics, changing nothing, when fewer than `cnt` bytes are spare. */
    method AdvanceMut(cnt: nat) returns (r: Outcome)
      requires Valid()
      modifies this
      ensures Valid() && data == old(data) && spilled == old(spilled)
      ensures r == Done <==> cnt <= old(Capacity() - len)
      ensures r != Done ==> r == Panicked(cnt, old(Capacity() - len)) && len == old(len)
      ensures r == Done ==> len == old(len) + cnt && AsRef() == old(data[..len + cnt])
      ensures r == Done ==> AsRef()[..old(len)] == old(AsRef())
      ensures r == Done ==> RemainingMut() == old(RemainingMut()) - cnt
    {
      var remaining := data.Length - len;
      if remaining < cnt {
        return Panicked(cnt, remaining);
      }
      len := len + cnt;
      r := Done;
    }

    /** `BufMut::chunk_mut`: the writable tail `[offset, offset + size)` of the
        store, which is `[len, capacity)`. A full buffer first grows by 64
        bytes, so the tail is never empty. */
    method ChunkMut() returns (offset: nat, size: nat)
      requires Valid()
      requires len == Capacity() ==> len + 64 <= ISIZE_MAX
      modifies this
      ensures Valid() && len == old(len) && AsRef() == old(AsRef())
      ensures offset == len && offset + size == Capacity() && 0 < size
      ensures old(len) < old(Capacity()) ==> data == old(data)
      ensures old(len) == old(Capacity()) ==> old(len) + 64 <= Capacity()
      ensures old(Capacity()) <= Capacity() && (old(spilled) ==> spilled)
      ensures data == old(data) || fresh(data)
    {
      if Capacity() == Len() {
        Reserve(64);
      }
      offset := len;
      size := data.Length - len;
    }

    /** A caller writing `bytes` through the `UninitSlice` that `chunk_mut`
        returned, starting at its first byte: only the tail changes. */
    method WriteChunk(bytes: seq<u8>)
      requires Valid() && len + |bytes| <= Capacity()
      modifies data
      ensures AsRef() == old(AsRef())
      ensures data[..len + |bytes|] == AsRef() + bytes
    {
      WriteAt(data, len, bytes);
      assert data[..len + |bytes|] == data[..len] + data[len..len + |bytes|];
    }

    /** `BufMut::put`: reserves room for everything `src` holds, then
        appends it chunk by chunk until `src` is exhausted. The store is
        reallocated at most once, however many chunks `src` hands out. */
    method Put(src: ChunkedSource)
      requires Valid() && src.Valid()
      requires len + src.Remaining() <= ISIZE_MAX
      modifies this, data, src
      ensures Valid() && src.Valid()
      ensures AsRef() == old(AsRef()) + old(src.Bytes())
      ensures src.Remaining() == 0
      ensures old(len) + old(src.Remaining()) <= Capacity()
      ensures old(Capacity()) <= Capacity() && (old(spilled) ==> spilled)
      ensures data == old(data) || fresh(data)
      ensures reallocations <= old(reallocations) + 1
    {
      Reserve(src.Remaining());
      ghost var reserved := reallocations;
      while src.HasRemaining()
        invariant Valid() && src.Valid()
        invariant AsRef() + src.Bytes() == old(AsRef()) + old(src.Bytes())
        invariant len + src.Remaining() <= Capacity()
        invariant reallocations == reserved <= old(reallocations) + 1
        invariant old(Capacity()) <= Capacity() && (old(spilled) ==> spilled)
        invariant data == old(data) || fresh(data)
        decreases src.Remaining()
      {
        var s := src.Chunk();
        var l := |s|;
        ExtendFromSlice(s);
        src.Advance(l);
      }
    }

    /** `BufMut::put_slice`: the same as `extend_from_slice`. */
    method PutSlice(src: seq<u8>)
      requires Valid() && len + |src| <= ISIZE_MAX
      modifies this, data
      ensures Valid() && AsRef() == old(AsRef()) + src
      ensures RemainingMut() == old(RemainingMut()) - |src|
      ensures old(Capacity()) <= Capacity() && (old(spilled) ==> spilled)
      ensures data == old(data) || fresh(data)
    {
      ExtendFromSlice(src);
    }

    /** `BufMut::put_bytes`: resizes to `len` plus `cnt`, computed with
        saturating addition, padding with `val`. */
    method PutBytes(val: u8, cnt: nat)
      requires Valid() && len + cnt <= ISIZE_MAX
      modifies this, data
      ensures Valid() && AsRef() == old(AsRef()) + Repeat(val, cnt)
      ensures old(Capacity()) <= Capacity() && (old(spilled) ==> spilled)
      ensures data == old(data) || fresh(data)
    {
      var newLen := SaturatingAdd(len, cnt);
      Resize(newLen, val);
    }

    /** `BufMut::put_u16`: appends the big-endian bytes of `n`. */
    method PutU16(n: nat)
      requires Valid() && n <= 0xFFFF && len + 2 <= ISIZE_MAX
      modifies this, data
      ensures Valid() && AsRef() == old(AsRef()) + U16ToBeBytes(n)
      ensures old(Capacity()) <= Capacity() && (old(spilled) ==> spilled)
      ensures data == old(data) || fresh(data)
    {
      PutSlice(U16ToBeBytes(n));
    }

    /** The `bytes` crate's generic `put_slice`, which `SmallBytes` overrides:
        request a chunk, write into it, commit what was written, repeat. It
        appends exactly what `PutSlice` appends, and it terminates because
        `chunk_mut` never returns an empty chunk. */
    method PutSliceViaChunks(src: seq<u8>)
      requires Valid() && len + |src| + 64 <= ISIZE_MAX
      modifies this, data
      ensures Valid() && AsRef() == old(AsRef()) + src
      ensures old(Capacity()) <= Capacity() && (old(spilled) ==> spilled)
      ensures data == old(data) || fresh(data)
    {
      var off := 0;
      while off < |src|
        invariant Valid() && off <= |src|
        invariant AsRef() == old(AsRef()) + src[..off]
        invariant old(Capacity()) <= Capacity() && (old(spilled) ==> spilled)
        invariant data == old(data) || fresh(data)
        decreases |src| - off
      {
        var offset, size := ChunkMut();
        var cnt := Min(size, |src| - off);
        WriteChunk(src[off..off + cnt]);
        var r := AdvanceMut(cnt);
        assert r == Done;
        assert src[..off + cnt] == src[..off] + src[off..off + cnt];
        off := off + cnt;
      }
      assert src[..|src|] == src;
    }
  }
}
