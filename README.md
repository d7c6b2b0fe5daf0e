# smallbytes, modelled in Dafny

`SmallBytes<N>` is a growable byte buffer. It keeps up to `N` bytes inline and
moves them to the heap once more room is needed. On top of the underlying
`SmallVec<[u8; N]>` it implements the `bytes` crate's `BufMut` writer
contract. That contract has two phases: `chunk_mut` hands out the
uninitialised tail `[len, capacity)` of the store, and `advance_mut(cnt)`
commits `cnt` bytes the caller wrote there. `advance_mut` panics if `cnt`
exceeds the spare room. Bulk writers (`put`, `put_slice`, `put_bytes`) bypass
that protocol and append directly.

The model has four modules, one file each:

- `Primitives` (`primitives.dfy`): the Rust `u8`, the `usize::MAX` and
  `isize::MAX` bounds of a 64-bit target, `saturating_add`, and the big-endian
  encoding of a `u16`.
- `BufSource` (`buf_source.dfy`): the readable source that `put` consumes.
  `ChunkedSource` holds its remaining data as a sequence of non-empty
  contiguous chunks and offers `remaining`, `has_remaining`, `chunk` and
  `advance`. A byte slice is the one-chunk case.
- `Lib` (`small_bytes.dfy`): the class `SmallBytes`. Its fields are a backing
  `array<u8>` whose length is the capacity, the initialised length `len`, the
  one-way `spilled` flag, the inline capacity `N`, and a ghost count of
  reallocations of the store. `Valid()` states
  `len <= capacity`, `N <= capacity <= isize::MAX`, and `spilled` exactly when
  the capacity exceeds `N`. `AsRef()` is the initialised prefix. Every
  mutating method states the new contents in terms of the old ones. Every
  mutating method also promises that the capacity never shrinks and that a
  spilled buffer stays spilled. The chunk returned by `chunk_mut` is an index
  range into the backing array.
- `LibTests` (`lib_tests.dfy`): the crate's `test_it_works` and three
  scenarios: a new buffer, truncate-then-append, and the chunk/commit
  protocol.

Contents never depend on whether the buffer has spilled. Equality of two
buffers is equality of their `AsRef()` contents.

## Model

| member | source | states |
|---|---|---|
| `Lib.SmallBytes.constructor` | src/lib.rs:21-23 | a new buffer is valid, empty, inline (not spilled), with capacity exactly `N` |
| `Lib.SmallBytes.AsRef` | src/lib.rs:8-12 | the byte view is exactly `len` bytes long: the initialised prefix of the store |
| `Lib.SmallBytes.Len` | src/lib.rs:25-27 | the length is the number of bytes in the view and never exceeds the capacity |
| `Lib.SmallBytes.IsEmpty` | src/lib.rs:29-31 | true exactly when the contents are empty |
| `Lib.SmallBytes.Capacity` | src/lib.rs:33-35 | the capacity is at least `N`, at least the length, at most `isize::MAX`, and exceeds `N` exactly when the buffer has spilled |
| `Lib.SmallBytes.Grow` | src/lib.rs:37-39 | a spill or regrowth moves the initialised bytes unchanged into a fresh, larger store, after which the buffer is spilled |
| `Lib.SmallBytes.Reserve` | src/lib.rs:37-39 | afterwards `additional` more bytes fit after the contents; contents and length unchanged; capacity never shrinks; nothing is reallocated when the room already existed; spill is one-way |
| `Lib.Resized` | src/lib.rs:41-43 | the resized contents have exactly the new length, keep the old bytes below both lengths, and hold the fill value from the old length on |
| `Lib.SmallBytes.Resize` | src/lib.rs:41-43 | the new contents are the old ones truncated or padded with `value`; the store is kept when shrinking; capacity covers the new length |
| `Lib.ResizedForgetsTruncated` | src/lib.rs:41-43 | shrinking to `k` and growing again shows the old prefix up to `k` and only fill bytes after it, so truncated bytes never reappear |
| `Lib.WriteAt` | src/lib.rs:45-47 | copying a slice into the store at an offset writes exactly those bytes and leaves everything before and after them alone |
| `Lib.SmallBytes.ExtendFromSlice` | src/lib.rs:45-47 | the contents become the old contents followed by the slice, `remaining_mut` drops by the slice length, and no reallocation happens when the slice already fits |
| `Lib.SmallBytes.RemainingMut` | src/lib.rs:51-53 | `remaining_mut` plus the length is exactly `isize::MAX`; it cannot underflow because the length is bounded by `isize::MAX` |
| `Lib.SmallBytes.AdvanceMut` | src/lib.rs:55-65 | it commits exactly when `cnt <= capacity - len`; otherwise it panics with `cnt` and the spare room and leaves the buffer unchanged; on commit the length grows by exactly `cnt`, the old bytes are unchanged, the committed bytes are the ones already in the tail, and `remaining_mut` drops by `cnt` |
| `Lib.SmallBytes.ChunkMut` | src/lib.rs:67-80 | the chunk is the range `[len, capacity)` and is never empty; a full buffer first gains at least 64 bytes of capacity; a non-full buffer is untouched; contents and length never change |
| `Lib.SmallBytes.WriteChunk` | src/lib.rs:75-79 | writing through the chunk changes only bytes past the length, so the contents are unchanged until a commit, and the tail then holds the written bytes |
| `BufSource.ChunkedSource.Remaining` | src/lib.rs:90 | the source's remaining count is the number of bytes still to be read |
| `BufSource.ChunkedSource.HasRemaining` | src/lib.rs:92 | true exactly when some bytes remain |
| `BufSource.ChunkedSource.Chunk` | src/lib.rs:93-94 | the chunk is a prefix of the remaining bytes and is non-empty exactly when some remain |
| `BufSource.ChunkedSource.Advance` | src/lib.rs:96 | advancing by `cnt` drops exactly the first `cnt` remaining bytes, across chunk boundaries too |
| `Lib.SmallBytes.Put` | src/lib.rs:85-98 | the contents become the old contents followed by every remaining byte of the source in order; the source is left empty; capacity covers old length plus the source's size; the store is reallocated at most once, by the up-front reserve, however many chunks the source has; spill is one-way |
| `Lib.SmallBytes.PutSlice` | src/lib.rs:100-103 | the contents become the old contents followed by the slice, and `remaining_mut` drops by its length |
| `Lib.Repeat` | src/lib.rs:105-110 | `n` copies of a byte: exactly `n` long, every element equal to the byte |
| `Primitives.SaturatingAdd` | src/lib.rs:108 | the target length never exceeds `usize::MAX` and never falls below either operand; it is the exact sum exactly when the sum fits, and `usize::MAX` otherwise |
| `Primitives.SaturationAvoidsWrap` | src/lib.rs:107-108 | on overflow a wrapping sum would fall below the current length, while the saturating one clamps to `usize::MAX` |
| `Lib.SmallBytes.PutBytes` | src/lib.rs:105-110 | the contents become the old contents followed by `cnt` copies of `val` |
| `Primitives.U16ToBeBytes` | src/lib.rs:123 | `put_u16` writes two bytes that decode back to the number, most significant first |
| `Primitives.U16BeBytesRoundTrip` | src/lib.rs:123 | encoding the decoding of any two bytes gives those bytes back |
| `Lib.SmallBytes.PutU16` | src/lib.rs:123 | `put_u16` appends the two big-endian bytes of the number |
| `Lib.SmallBytes.PutSliceViaChunks` | src/lib.rs:82-83 | the generic chunk-write-commit loop that `put_slice` overrides appends exactly the slice, as the specialised `PutSlice` does, and terminates because chunks are never empty |
| `LibTests.ItWorks` | src/lib.rs:119-125 | on `SmallBytes<4>`, `put(b"hello world")` then `put_u16(1234)` gives exactly `b"hello world\x04\xD2"`, and the buffer has spilled |
| `LibTests.NewIsEmpty` | src/lib.rs:21-31 | a new buffer reports length 0, is empty, has capacity `N` and is not spilled |
| `LibTests.TruncateThenAppend` | src/lib.rs:41-47 | writing `hello`, resizing to 3 and appending `p!` gives `help!` with nothing of the truncated bytes |
| `LibTests.ChunkProtocol` | src/lib.rs:55-80 | on a full buffer `chunk_mut` yields room without a prior `reserve`; committing 2 written bytes succeeds and keeps them; committing one byte more than the spare room panics with the right numbers |

## Left out

- Raw pointers and the `UninitSlice` (src/lib.rs:75-79) are not modelled. The chunk is the index range `[offset, offset + size)` of the backing array. A caller's writes through it are `WriteChunk`. Bytes past `len` are the array's current values rather than uninitialised memory.
- Inline and heap storage are one array here. `Grow` is the move to a fresh array, and `spilled` and the capacity are what tell the two states apart.
- Lib.SmallBytes.Reserve: the growth policy of `SmallVec` is not part of this model. `Grow` grows to exactly `len + additional`, whereas `SmallVec` rounds up to a power of two. So `Reserve`, `ChunkMut` and `Put` promise only a lower bound on the new capacity.
- Allocation failure and the capacity-overflow panic are not modelled. `Reserve`, `Resize`, `ExtendFromSlice`, `ChunkMut`, `Put`, `PutSlice`, `PutBytes` and `PutU16` instead require that the length they need stays within `isize::MAX`, the largest byte allocation Rust permits.
- Lib.SmallBytes.PutBytes: the method requires `len + cnt <= isize::MAX`. When the saturating sum clamps to `usize::MAX`, `resize` then panics with a capacity overflow, and that path is not modelled. The clamping itself is stated and proved in `SaturatingAdd` and `SaturationAvoidsWrap`.
- Counts and lengths are unbounded `nat`s. `usize` width matters only in `saturating_add` and in `remaining_mut`; both are written out against 64-bit `usize::MAX` and `isize::MAX`.
- The `bytes` crate's `Buf` trait is not part of this model. `ChunkedSource` gives only what `put` uses. `Buf::advance` past the remaining bytes would panic; `Advance` requires that it does not, and `put` never does it.
- Lib.SmallBytes.PutSliceViaChunks: it models the `bytes` crate's default `put_slice`, which lib.rs overrides (src/lib.rs:82-83). Its requires leaves 64 bytes of headroom for the growth in `chunk_mut`. It omits that default's opening `remaining_mut` assertion, which cannot fail under that requires.
- Derived `Clone`, `Debug`, `Hash`, `Ord`, `PartialOrd`, `PartialEq` and `Eq` (src/lib.rs:5-6) are not modelled: they compare or copy the contents `AsRef()`. `Default` (src/lib.rs:14-18) is the constructor.
- The `cursor_is_buf` test (src/lib.rs:127-131) checks only a type-level conversion and has no behaviour to model.
- Lib.SmallBytes.ChunkMut: a full buffer is promised room for at least 64 more bytes, not a capacity of exactly 64 more. That is what the code's `reserve(64)` guarantees (src/lib.rs:68-70), since the new capacity is up to `SmallVec`.
