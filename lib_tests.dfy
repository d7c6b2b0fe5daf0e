/** The crate's test `test_it_works` and three scenarios of the buffer's
    contract (a new buffer, truncate-then-append, chunk/commit), stated as
    verified methods. */
module LibTests {
  import opened Primitives
  import opened BufSource
  import opened Lib

  /** `test_it_works`: on `SmallBytes<4>`, `put(b"hello world")` then
      `put_u16(1234)` gives `b"hello world\x04\xD2"`, and the 4-byte inline
      capacity has been left behind. */
  method ItWorks() returns (content: seq<u8>, spilled: bool)
    ensures content == ByteString("hello world") + [0x04, 0xD2]
    ensures spilled
  {
    var buf := new SmallBytes(4);
    var src := new ChunkedSource([ByteString("hello world")]);
    assert src.Bytes() == ByteString("hello world") by {
      assert src.pieces[1..] == [];
    }
    buf.Put(src);
    buf.PutU16(1234);
    content := buf.AsRef();
    spilled := buf.spilled;
  }

  /** A new buffer is empty and keeps its bytes inline. */
  method NewIsEmpty(n: nat) returns (len: nat, empty: bool, capacity: nat, spilled: bool)
    requires n <= ISIZE_MAX
    ensures len == 0 && empty && capacity == n && !spilled
  {
    var buf := new SmallBytes(n);
    len, empty, capacity, spilled := buf.Len(), buf.IsEmpty(), buf.Capacity(), buf.spilled;
  }

  /** Truncating and then appending exposes only the appended bytes after
      the truncation point; the truncated bytes do not reappear. */
  method TruncateThenAppend() returns (content: seq<u8>)
    ensures content == ByteString("hel") + ByteString("p!")
  {
    var buf := new SmallBytes(4);
    buf.PutSlice(ByteString("hello"));
    buf.Resize(3, 0);
    assert buf.AsRef() == ByteString("hello")[..3];
    buf.PutSlice(ByteString("p!"));
    content := buf.AsRef();
    assert ByteString("hello")[..3] == ByteString("hel");
  }

  /** Committing through `chunk_mut`/`advance_mut` on a full buffer: the chunk
      is non-empty without any `reserve`, the commit adds exactly what was
      written, and an oversized commit panics. */
  method ChunkProtocol() returns (content: seq<u8>, capacity: nat, r1: Outcome, r2: Outcome)
    ensures content == [7, 8] && 64 <= capacity
    ensures r1 == Done
    ensures r2 == Panicked(capacity - 1, capacity - 2)
  {
    var buf := new SmallBytes(0);
    var offset, size := buf.ChunkMut();
    assert offset == 0 && size >= 64;
    buf.WriteChunk([7, 8]);
    r1 := buf.AdvanceMut(2);
    capacity := buf.Capacity();
    r2 := buf.AdvanceMut(capacity - 1);
    content := buf.AsRef();
  }
}
